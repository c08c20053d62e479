/** The search for diagnoses: conflict-directed best-first search over candidates that are put to the truth
    maintenance system one by one. */
module Opsat {
  import opened Consistency
  import opened Heap
  import opened Logic
  import opened Options
  import opened Search
  import opened Sequences
  import Sorting
  import Tms

  /** conflict_is_smaller */
  predicate ConflictIsSmaller(c1: Conflict, c2: Conflict) {
    |c1| < |c2|
  }

  datatype Termination = EmptyAgenda | MaxOverrun | WeightCutoff | SearchContinue

  class OpsatCbfs {
    const d: Domain
    const db: ConflictDb
    const agenda: CbfsAgenda
    var conflicts: seq<Conflict>
    var candidatesConsidered: nat
    var cutoffWeight: nat
    var maxCandidates: nat
    ghost const background: set<Disjunction>  // the clauses of the theory that are no assumptions
    ghost var seeds: seq<Candidate>
    ghost var returned: seq<Candidate>
    ghost var reached: nat  // the weight of the element popped last
    ghost var asked: nat    // how many candidates have been put to the truth maintenance system

    /** Assignments that contradict the background. */
    ghost predicate Blamed(conflict: Conflict) {
      Unsatisfiable(background + Units(conflict, db.Prop))
    }

    /** What the search looks for: an extension of a seed that has a model together with the background. */
    ghost predicate Target(s: Candidate)
      reads this`seeds
    {
      d.Admissible(s) && Possible(d, s, db.Prop, background) && exists r :: r in seeds && Within(r, s)
    }

    /** No conflict stands against a target. */
    lemma TargetAvoids(s: Candidate, conflict: Conflict)
      requires Target(s) && Blamed(conflict)
      ensures d.Avoids(s, conflict)
    {
      hide Possible, Unsatisfiable, Domain.Admissible;
      PossibleAvoids(d, s, db.Prop, background, conflict);
    }

    static ghost predicate Contained(rs: seq<Candidate>, s: Candidate) {
      exists r :: r in rs && Within(r, s)
    }

    /** No target is lost: it contains a candidate that was returned, or the agenda still leads to it. */
    ghost predicate Complete(rs: seq<Candidate>, es: seq<Element>)
      reads this`seeds
    {
      forall s :: Target(s) ==> Contained(rs, s) || Leads(d, es, s)
    }

    ghost predicate Recorded()
      reads this`conflicts
    {
      && (forall conflict :: conflict in conflicts ==> Blamed(conflict) && NoDuplicates(conflict))
      && (forall i, j :: 0 <= i < j < |conflicts| ==> |conflicts[i]| <= |conflicts[j]|)
    }

    /** Nothing on the agenda is lighter than w, and no default has been added to a seed. */
    ghost predicate Frontier(es: seq<Element>, w: nat)
      reads this`seeds
    {
      forall e :: e in es ==> e.weight >= w && (FaultySeeds() ==> d.FaultsOnly(e.prefix))
    }

    ghost predicate FaultySeeds()
      reads this`seeds
    {
      forall c :: c in seeds ==> d.FaultsOnly(c)
    }

    /** Every target that contains none of these candidates weighs at least w. */
    ghost predicate NothingLighter(rs: seq<Candidate>, w: nat)
      reads this`seeds
    {
      forall s :: Target(s) && !Contained(rs, s) ==> agenda.emptyWeight + Weight(s) >= w
    }

    /** Propagation from scratch meets no conflict in the background with all that the candidate makes. */
    ghost predicate Consistent(c: Candidate) {
      !PropagationConflict(background + World(d, c, db.Prop))
    }

    /** What the search looks for is never turned down. */
    lemma TargetConsistent(s: Candidate)
      requires Target(s)
      ensures Consistent(s)
    {
      hide PropagationConflict, Unsatisfiable;
      if !Consistent(s) { ConflictUnsatisfiable(background + World(d, s, db.Prop)); }
    }

    /** A consistent candidate of the weight that the search has reached. */
    ghost predicate Accepted(c: Candidate, w: nat)
      reads this`seeds
    {
      && d.Admissible(c) && agenda.emptyWeight + Weight(c) == w && (FaultySeeds() ==> d.FaultsOnly(c))
      && Consistent(c)
    }

    /** The truth maintenance system is in a state between two calls, and its background is that of the search. */
    ghost predicate Answerable()
      reads db, db.assertions, db.ltms, db.ltms.fringe, db.ltms.volatileFringe, db.ltms.unsatisfied
      reads db.ltms.fringe.items, db.ltms.volatileFringe.items, db.ltms.props, db.ltms.clauses
    {
      && db.d == d && db.Connected() && db.ltms.Usable({}) && db.ltms.timeStamp <= db.ltms.MAX_TIME_STAMP
      && db.Background() == background
    }

    ghost predicate Searching()
      reads this`seeds, this`returned, this`reached, this`conflicts, agenda, agenda.heap
    {
      && agenda.Valid() && agenda.d == d && Recorded()
      && Frontier(agenda.heap.arr, reached) && Complete(returned, agenda.heap.arr)
    }

    ghost predicate Valid()
      reads this`seeds, this`returned, this`reached, this`conflicts, agenda, agenda.heap
      reads db, db.assertions, db.ltms, db.ltms.fringe, db.ltms.volatileFringe, db.ltms.unsatisfied
      reads db.ltms.fringe.items, db.ltms.volatileFringe.items, db.ltms.props, db.ltms.clauses
    {
      Searching() && Answerable()
    }

    /** Opsat_CBFS::Opsat_CBFS and initialize_search */
    constructor (db: ConflictDb, emptyWeight: nat, cutoff: nat, maximum: nat, candidates: seq<Candidate>)
      requires db.Connected() && db.ltms.Usable({}) && db.ltms.timeStamp <= db.ltms.MAX_TIME_STAMP
      requires Fits(db.d, emptyWeight) && forall c :: c in candidates ==> db.d.Admissible(c)
      ensures Valid() && this.db == db && agenda.emptyWeight == emptyWeight && background == db.Background()
      ensures cutoffWeight == cutoff && maxCandidates == maximum
      ensures returned == [] && seeds == (if candidates == [] then [[]] else candidates)
      ensures fresh(agenda) && fresh(agenda.heap)
    {
      hide *;
      this.db, d := db, db.d;
      background := db.Background();
      db.ConnectedParts();
      agenda := new CbfsAgenda(db.d, emptyWeight);
      conflicts, candidatesConsidered, cutoffWeight, maxCandidates := [], 0, cutoff, maximum;
      seeds, returned, reached, asked := if candidates == [] then [[]] else candidates, [], 0, 0;
      new;
      agenda.InitializeAgenda(candidates);
      Planted(candidates);
      StillAnswerable();
      ValidParts();
    }

    lemma StillAnswerable()
      requires db.d == d && db.Connected() && db.ltms.Usable({}) && db.ltms.timeStamp <= db.ltms.MAX_TIME_STAMP
      requires db.Background() == background
      ensures Answerable()
    {
      hide ConflictDb.Connected, Tms.Ltms.Usable, ConflictDb.Background;
    }

    /** The agenda starts from the seeds. */
    lemma Planted(candidates: seq<Candidate>)
      requires agenda.Valid() && agenda.d == d
      requires returned == [] && reached == 0 && conflicts == []
      requires forall e :: e in agenda.heap.arr ==> e.current.None? && e.prefix in seeds
      requires forall r :: r in seeds ==> agenda.Planted(agenda.heap.arr, r)
      ensures Searching()
    {
      hide Weight, Domain.Admissible, Fits, CbfsAgenda.Ready;
      assert Frontier(agenda.heap.arr, reached);
      forall s | Target(s) ensures Leads(d, agenda.heap.arr, s) {
        var r :| r in seeds && Within(r, s);
        assert agenda.Planted(agenda.heap.arr, r);
        var e :| e in agenda.heap.arr && e.current.None? && e.prefix == r;
        assert e.LeadsTo(d, s);
      }
    }

    /** Conflict::subsumes */
    static predicate Subsumes(conflict: Conflict, other: Conflict) {
      forall a :: a in conflict ==> a in other
    }

    /** This record stands at place k, and none before it is within the conflict. */
    ghost predicate FirstAt(k: int, record: Conflict, conflict: Conflict)
      reads this`conflicts
    {
      0 <= k < |conflicts| && conflicts[k] == record && forall i :: 0 <= i < k ==> !Subsumes(conflicts[i], conflict)
    }

    /** Conflict_db::find_subsuming_conflict */
    method FindSubsumingConflict(conflict: Conflict) returns (r: Option<Conflict>)
      ensures r.Some? ==> Subsumes(r.value, conflict) && exists k :: FirstAt(k, r.value, conflict)
      ensures r.None? ==> forall k :: k in conflicts ==> !Subsumes(k, conflict)
    {
      for k := 0 to |conflicts|
        invariant forall i :: 0 <= i < k ==> !Subsumes(conflicts[i], conflict)
      {
        if Subsumes(conflicts[k], conflict) {
          assert FirstAt(k, conflicts[k], conflict);
          return Some(conflicts[k]);
        }
      }
      return None;
    }

    /** Conflict_db::add_conflict: a known conflict within the new one takes its place. */
    method AddConflict(conflict: Conflict) returns (r: Conflict)
      requires Recorded() && Blamed(conflict) && NoDuplicates(conflict)
      modifies this`conflicts
      ensures Recorded() && r in conflicts && Subsumes(r, conflict)
      ensures forall k :: k in conflicts <==> k in old(conflicts) || k == r
      ensures if forall k :: k in old(conflicts) ==> !Subsumes(k, conflict) then r == conflict
              else conflicts == old(conflicts)
    {
      var known := FindSubsumingConflict(conflict);
      if known.Some? {
        r := known.value;
      } else {
        r := conflict;
        SmallerIsOrder();
        ghost var before := conflicts;
        SortedBySize(conflicts);
        conflicts := Sorting.InsertSorted(conflicts, conflict, ConflictIsSmaller);
        SortedBySize(conflicts);
        hide Blamed, Sorting.Sorted;
        OneConflictMore(before, conflict, conflicts);
      }
    }

    static lemma OneConflictMore(before: seq<Conflict>, conflict: Conflict, after: seq<Conflict>)
      requires Sorting.StablyRearranged(before + [conflict], after, ConflictIsSmaller)
      ensures forall k :: k in after <==> k in before || k == conflict
    {
      assert forall k :: k in after <==> k in multiset(after);
      assert forall k :: k in before + [conflict] <==> k in multiset(before + [conflict]);
    }

    static lemma SortedBySize(cs: seq<Conflict>)
      ensures Sorting.Sorted(cs, ConflictIsSmaller) <==> forall i, j :: 0 <= i < j < |cs| ==> |cs[i]| <= |cs[j]|
    {
    }

    static lemma SmallerIsOrder()
      ensures Sorting.StrictWeakOrder(ConflictIsSmaller)
    {
    }

    /** Conflict_db::conflict, after the candidate's assignments have been made: the truth maintenance system answers,
        and a conflict is entered into the record. */
    method Ask(c: Candidate) returns (conflict: Option<Conflict>)
      requires Answerable() && Recorded() && d.Admissible(c) && agenda.d == d
      modifies this`conflicts, this`asked
      modifies db`current, db.ltms`unsatisfied, db.ltms`undoList, db.ltms`trues, db.ltms`rank, db.ltms`timeStamp
      modifies db.ltms.fringe, db.ltms.volatileFringe
      modifies db.ltms.props`tv, db.ltms.props`supportedBy, db.ltms.props`slot, db.ltms.clauses`deleted
      modifies db.ltms.clauses`supports, db.ltms.clauses`satisfyingProp, db.ltms.clauses`numUnassigned
      modifies db.ltms.clauses`unsatisfied, db.ltms.clauses`inFringe, db.ltms.clauses`fringeIndex
      modifies db.ltms.clauses`timeStamp
      ensures Answerable() && Recorded() && asked == old(asked) + 1
      ensures conflict.None? <==> Consistent(c)
      ensures conflict.Some? ==> Blamed(conflict.value) && agenda.Blames(conflict.value, c)
    {
      hide *;
      AnswerableParts();
      asked := asked + 1;
      var answer := db.Ask(c);
      StillAnswerable();
      conflict := None;
      if answer.Some? {
        Answered(c, answer.value);
        var known := AddConflict(answer.value);
        Reported(c, answer.value, known);
        conflict := Some(known);
      }
      ConsistentMeans(c);
    }

    lemma AnswerableParts()
      requires Answerable()
      ensures db.d == d && db.Connected() && db.ltms.Usable({}) && db.ltms.timeStamp <= db.ltms.MAX_TIME_STAMP
      ensures db.Background() == background
    {
      hide ConflictDb.Connected, Tms.Ltms.Usable, ConflictDb.Background;
    }

    lemma ConsistentMeans(c: Candidate)
      ensures Consistent(c) <==> !PropagationConflict(background + World(d, c, db.Prop))
    {
      hide PropagationConflict, World;
    }

    lemma Answered(c: Candidate, conflict: Conflict)
      requires Sound(d, db.Prop, background, c, Some(conflict)) && agenda.d == d
      ensures Blamed(conflict) && NoDuplicates(conflict) && agenda.Blames(conflict, c)
    {
      hide Unsatisfiable, Units, Domain.Has, Domain.Makes;
    }

    /** A known conflict within the answer blames the candidate too. */
    lemma Reported(c: Candidate, conflict: Conflict, known: Conflict)
      requires agenda.Blames(conflict, c) && Subsumes(known, conflict) && Recorded() && known in conflicts
      ensures Blamed(known) && agenda.Blames(known, c)
    {
      hide Blamed, Domain.Has, Domain.Makes;
    }

    lemma SearchingParts()
      ensures Searching() <==> (
        agenda.Valid() && agenda.d == d && Recorded() &&
        Frontier(agenda.heap.arr, reached) && Complete(returned, agenda.heap.arr))
    {
      hide CbfsAgenda.Valid, Recorded, Frontier, Complete;
    }

    lemma ValidParts()
      ensures Valid() <==> Searching() && Answerable()
    {
      hide Searching, Answerable;
    }

    /** Pop the lightest candidate and put it to the truth maintenance system. */
    method Propose() returns (c: Candidate, conflict: Option<Conflict>)
      requires Searching() && Answerable() && agenda.heap.arr != []
      modifies this`conflicts, this`candidatesConsidered, this`asked, agenda`lastPopped, agenda.heap
      modifies db`current, db.ltms`unsatisfied, db.ltms`undoList, db.ltms`trues, db.ltms`rank, db.ltms`timeStamp
      modifies db.ltms.fringe, db.ltms.volatileFringe
      modifies db.ltms.props`tv, db.ltms.props`supportedBy, db.ltms.props`slot, db.ltms.clauses`deleted
      modifies db.ltms.clauses`supports, db.ltms.clauses`satisfyingProp, db.ltms.clauses`numUnassigned
      modifies db.ltms.clauses`unsatisfied, db.ltms.clauses`inFringe, db.ltms.clauses`fringeIndex
      modifies db.ltms.clauses`timeStamp
      ensures Answerable() && Recorded() && agenda.Valid() && agenda.lastPopped.Some?
      ensures asked == old(asked) + 1 && candidatesConsidered == old(candidatesConsidered) + 1
      ensures var popped := agenda.lastPopped.value;
              agenda.Ready(popped) && c == popped.Proposal() && Departed(old(agenda.heap.arr), agenda.heap.arr, popped)
      ensures conflict.None? <==> Consistent(c)
      ensures conflict.Some? ==> Blamed(conflict.value) && agenda.Blames(conflict.value, c)
    {
      hide *;
      SearchingParts();
      ghost var before := agenda.heap.arr;
      c := agenda.PopCandidate();
      LeastPopped(before, agenda.heap.arr, agenda.lastPopped.value);
      candidatesConsidered := candidatesConsidered + 1;
      conflict := Ask(c);
    }

    /** A lightest element of the agenda is gone. */
    ghost predicate Departed(before: seq<Element>, rest: seq<Element>, popped: Element) {
      && multiset(before) == multiset(rest) + multiset{popped}
      && forall e :: e in rest ==> e.weight >= popped.weight
    }

    lemma LeastPopped(before: seq<Element>, rest: seq<Element>, popped: Element)
      requires multiset(before) == multiset(rest) + multiset{popped} && agenda.Ready(popped) && agenda.d == d
      requires forall e :: e in rest ==> e.weight >= popped.weight
      ensures Departed(before, rest, popped) && d.Admissible(popped.Proposal())
    {
      popped.ProposalAdmissible(d);
    }

    static ghost predicate NoneBelow(es: seq<Element>, w: nat) {
      forall e :: e in es ==> w <= e.weight
    }

    lemma LightestOf(before: seq<Element>, rest: seq<Element>, popped: Element)
      requires Departed(before, rest, popped)
      ensures NoneBelow(before, popped.weight)
    {
      Members(before, rest + [popped]);
    }

    /** Expand the popped element, and return its candidate if nothing has been found against it. */
    method Pursue(c: Candidate, conflict: Option<Conflict>, ghost before: seq<Element>, ghost popped: Element)
      returns (found: Option<Candidate>)
      requires Recorded() && c == popped.Proposal() && (conflict.None? ==> Consistent(c))
      requires agenda.Valid() && agenda.d == d && agenda.lastPopped == Some(popped) && agenda.Ready(popped)
      requires Departed(before, agenda.heap.arr, popped) && Complete(returned, before) && Frontier(before, reached)
      requires conflict.Some? ==> Blamed(conflict.value) && agenda.Blames(conflict.value, popped.Proposal())
      modifies agenda.heap, this`returned, this`reached
      ensures Searching() && TotalWork(d, agenda.heap.arr) < TotalWork(d, before)
      ensures reached >= old(reached) && NothingLighter(old(returned), reached) && NoneBelow(before, reached)
      ensures found.None? ==> returned == old(returned)
      ensures found.Some? ==> returned == old(returned) + [found.value] && Accepted(found.value, reached)
    {
      hide *;
      ghost var rest := agenda.heap.arr;
      LightestOf(before, rest, popped);
      ReadyElements(rest);
      Popped(before, rest, popped);
      ghost var added := agenda.ExpandElement(conflict);
      Expanded(before, rest, popped, added, agenda.heap.arr, conflict);
      found := None;
      if conflict.None? {
        Unopposed(popped);
        found := Some(c);
      }
      reached, returned := popped.weight, if found.Some? then returned + [c] else returned;
      SearchingParts();
    }

    /** Propose the lightest candidate on the agenda and expand it. */
    method Step() returns (found: Option<Candidate>)
      requires Valid() && agenda.heap.arr != []
      modifies this`conflicts, this`candidatesConsidered, this`returned, this`reached, this`asked
      modifies agenda`lastPopped, agenda.heap
      modifies db`current, db.ltms`unsatisfied, db.ltms`undoList, db.ltms`trues, db.ltms`rank, db.ltms`timeStamp
      modifies db.ltms.fringe, db.ltms.volatileFringe
      modifies db.ltms.props`tv, db.ltms.props`supportedBy, db.ltms.props`slot, db.ltms.clauses`deleted
      modifies db.ltms.clauses`supports, db.ltms.clauses`satisfyingProp, db.ltms.clauses`numUnassigned
      modifies db.ltms.clauses`unsatisfied, db.ltms.clauses`inFringe, db.ltms.clauses`fringeIndex
      modifies db.ltms.clauses`timeStamp
      ensures Valid() && reached >= old(reached) && NothingLighter(old(returned), reached)
      ensures TotalWork(d, agenda.heap.arr) < TotalWork(d, old(agenda.heap.arr))
      ensures found.None? ==> returned == old(returned)
      ensures found.Some? ==> returned == old(returned) + [found.value] && Accepted(found.value, reached)
      ensures asked == old(asked) + 1 && candidatesConsidered == old(candidatesConsidered) + 1
      ensures NoneBelow(old(agenda.heap.arr), reached)
    {
      hide *;
      ValidParts();
      SearchingParts();
      ghost var before := agenda.heap.arr;
      var c, conflict := Propose();
      ghost var popped := agenda.lastPopped.value;
      found := Pursue(c, conflict, before, popped);
      ValidParts();
    }

    lemma ReadyElements(es: seq<Element>)
      requires agenda.Valid() && es == agenda.heap.arr
      ensures forall e :: e in es ==> agenda.Ready(e)
    {
      hide CbfsAgenda.Ready;
    }

    /** Every target that the agenda still leads to is as heavy as the lightest element at least. */
    lemma AgendaBound(es: seq<Element>, w: nat)
      requires agenda.d == d && Complete(returned, es) && forall e :: e in es ==> agenda.Ready(e) && e.weight >= w
      ensures NothingLighter(returned, w)
    {
      hide Weight, Domain.Admissible, Element.LeadsTo, Element.Proper, Target, Contained;
      forall s | Target(s) && !Contained(returned, s) ensures agenda.emptyWeight + Weight(s) >= w {
        var e :| e in es && e.LeadsTo(d, s);
        TargetAdmissible(s);
        e.Lightest(d, s);
      }
    }

    lemma TargetAdmissible(s: Candidate)
      requires Target(s)
      ensures d.Admissible(s)
    {
    }

    lemma Popped(before: seq<Element>, rest: seq<Element>, popped: Element)
      requires agenda.d == d && agenda.Ready(popped) && Departed(before, rest, popped)
      requires forall e :: e in rest ==> agenda.Ready(e)
      requires Complete(returned, before) && Frontier(before, reached)
      ensures reached <= popped.weight && (FaultySeeds() ==> d.FaultsOnly(popped.prefix))
      ensures NothingLighter(returned, popped.weight)
    {
      Members(before, rest + [popped]);
      assert popped in before;
      hide Domain.Admissible, Weight, Element.Proper, Domain.FaultsOnly, Complete, NothingLighter, CbfsAgenda.Ready;
      hide FaultySeeds;
      AgendaBound(before, popped.weight);
    }

    static lemma Members(es: seq<Element>, fs: seq<Element>)
      requires multiset(es) == multiset(fs)
      ensures forall e :: e in es <==> e in fs
    {
      assert forall e :: e in es <==> e in multiset(es);
      assert forall e :: e in fs <==> e in multiset(fs);
    }

    lemma Unopposed(popped: Element)
      requires agenda.d == d && agenda.Ready(popped) && Consistent(popped.Proposal())
      requires FaultySeeds() ==> d.FaultsOnly(popped.prefix)
      ensures Accepted(popped.Proposal(), popped.weight)
    {
      popped.ProposalAdmissible(d);
      hide Domain.Admissible, Weight, Domain.FaultsOnly, FaultySeeds, Consistent;
    }

    /** Every target is still accounted for after the popped element has been expanded. */
    lemma Expanded(before: seq<Element>, rest: seq<Element>, popped: Element, added: seq<Element>, after: seq<Element>,
                   conflict: Option<Conflict>)
      requires agenda.d == d && Complete(returned, before) && Frontier(before, reached)
      requires Departed(before, rest, popped) && multiset(after) == multiset(rest) + multiset(added)
      requires agenda.Successors(added, popped.weight, d.FaultsOnly(popped.prefix), agenda.Pursued(popped, conflict))
      requires TotalWork(d, added) < Work(d, popped)
      requires conflict.Some? ==> Blamed(conflict.value)
      ensures Complete(if conflict.None? then returned + [popped.Proposal()] else returned, after)
      ensures Frontier(after, popped.weight)
      ensures TotalWork(d, after) < TotalWork(d, before)
    {
      LessWork(before, rest, popped, added, after);
      Members(before, rest + [popped]);
      Members(after, rest + added);
      FrontierAfter(before, rest, popped, added, after, conflict);
      hide TotalWork, Work, Weight, Domain.FaultsOnly, Frontier, Element.LeadsTo;
      var returned' := if conflict.None? then returned + [popped.Proposal()] else returned;
      forall s | Target(s) ensures Contained(returned', s) || Leads(d, after, s) {
        StillOnTheWay(before, rest, popped, added, after, conflict, s);
      }
    }

    lemma StillOnTheWay(before: seq<Element>, rest: seq<Element>, popped: Element, added: seq<Element>,
                        after: seq<Element>, conflict: Option<Conflict>, s: Candidate)
      requires agenda.d == d && Complete(returned, before) && Target(s)
      requires (forall e :: e in before <==> e in rest || e == popped)
      requires (forall e :: e in after <==> e in rest || e in added)
      requires agenda.Successors(added, popped.weight, d.FaultsOnly(popped.prefix), agenda.Pursued(popped, conflict))
      requires conflict.Some? ==> Blamed(conflict.value)
      ensures Contained(if conflict.None? then returned + [popped.Proposal()] else returned, s) || Leads(d, after, s)
    {
      hide Weight, Domain.FaultsOnly, Domain.Admissible, Domain.Avoids, Element.LeadsTo, Within, CbfsAgenda.Ready;
      hide Blamed;
      if Contained(returned, s) {
        var r :| r in returned && Within(r, s);
        assert r in returned + [popped.Proposal()];
      } else {
        var e :| e in before && e.LeadsTo(d, s);
        if e == popped {
          if conflict.Some? { TargetAvoids(s, conflict.value); }
          TargetAdmissible(s);
          if s in agenda.Pursued(popped, conflict) {
            assert Leads(d, added, s);
          } else {
            assert popped.Proposal() in returned + [popped.Proposal()];
          }
        } else {
          assert e in after;
        }
      }
    }

    lemma FrontierAfter(before: seq<Element>, rest: seq<Element>, popped: Element, added: seq<Element>,
                        after: seq<Element>, conflict: Option<Conflict>)
      requires Frontier(before, reached) && forall e :: e in rest ==> e.weight >= popped.weight
      requires (forall e :: e in before <==> e in rest || e == popped)
      requires (forall e :: e in after <==> e in rest || e in added)
      requires agenda.d == d
      requires agenda.Successors(added, popped.weight, d.FaultsOnly(popped.prefix), agenda.Pursued(popped, conflict))
      ensures Frontier(after, popped.weight)
    {
      hide CbfsAgenda.Ready, CbfsAgenda.Pursued, Domain.FaultsOnly, FaultySeeds, Leads;
    }

    lemma LessWork(before: seq<Element>, rest: seq<Element>, popped: Element, added: seq<Element>, after: seq<Element>)
      requires multiset(before) == multiset(rest) + multiset{popped}
      requires multiset(after) == multiset(rest) + multiset(added)
      requires TotalWork(d, added) < Work(d, popped)
      ensures TotalWork(d, after) < TotalWork(d, before)
    {
      hide TotalWork, Work;
      TotalWorkOrder(d, before, rest + [popped]);
      TotalWorkMore(d, rest, popped);
      TotalWorkOrder(d, after, rest + added);
      TotalWorkBoth(d, rest, added);
    }

    /** Opsat_CBFS::terminate_search */
    function TerminateSearch(): Termination
      reads this`candidatesConsidered, this`maxCandidates, this`cutoffWeight, agenda.heap
    {
      if agenda.heap.arr == [] then EmptyAgenda
      else if maxCandidates != 0 && candidatesConsidered > maxCandidates then MaxOverrun
      else if cutoffWeight != 0 && agenda.heap.arr[0].weight > cutoffWeight then WeightCutoff
      else SearchContinue
    }

    /** More candidates have been considered than are allowed. */
    ghost predicate Overrun()
      reads this`candidatesConsidered, this`maxCandidates
    {
      maxCandidates != 0 && candidatesConsidered > maxCandidates
    }

    /** Everything on the agenda is above the cutoff. */
    ghost predicate AllTooHeavy()
      reads this`cutoffWeight, agenda.heap
    {
      cutoffWeight != 0 && forall e :: e in agenda.heap.arr ==> e.weight > cutoffWeight
    }

    /** Within the limits: one candidate more than allowed may have been considered, and none above the cutoff. */
    ghost predicate Moderate()
      reads this`candidatesConsidered, this`maxCandidates, this`cutoffWeight, this`reached
    {
      && (maxCandidates != 0 ==> candidatesConsidered <= maxCandidates + 1)
      && (cutoffWeight != 0 ==> reached <= cutoffWeight)
    }

    lemma StillModerate()
      requires maxCandidates != 0 ==> candidatesConsidered <= maxCandidates + 1
      requires cutoffWeight != 0 ==> reached <= cutoffWeight
      ensures Moderate()
    {
    }

    /** Opsat_CBFS::next_consistent_candidate */
    method NextConsistentCandidate() returns (found: Option<Candidate>)
      requires Valid()
      modifies this`conflicts, this`candidatesConsidered, this`returned, this`reached, this`asked
      modifies agenda`lastPopped, agenda.heap
      modifies db`current, db.ltms`unsatisfied, db.ltms`undoList, db.ltms`trues, db.ltms`rank, db.ltms`timeStamp
      modifies db.ltms.fringe, db.ltms.volatileFringe
      modifies db.ltms.props`tv, db.ltms.props`supportedBy, db.ltms.props`slot, db.ltms.clauses`deleted
      modifies db.ltms.clauses`supports, db.ltms.clauses`satisfyingProp, db.ltms.clauses`numUnassigned
      modifies db.ltms.clauses`unsatisfied, db.ltms.clauses`inFringe, db.ltms.clauses`fringeIndex
      modifies db.ltms.clauses`timeStamp
      ensures Valid() && reached >= old(reached)
      ensures found.Some? ==> returned == old(returned) + [found.value] && Accepted(found.value, reached)
      ensures found.Some? ==> NothingLighter(old(returned), reached)
      ensures found.Some? ==> TotalWork(d, agenda.heap.arr) < TotalWork(d, old(agenda.heap.arr))
      ensures found.None? ==> returned == old(returned) && (agenda.heap.arr == [] || Overrun() || AllTooHeavy())
      ensures found.None? && agenda.heap.arr == [] ==> forall s :: Target(s) ==> Contained(returned, s)
      ensures found.None? && AllTooHeavy() ==> NothingLighter(returned, cutoffWeight + 1)
      ensures candidatesConsidered - old(candidatesConsidered) == asked - old(asked) >= if found.Some? then 1 else 0
      ensures asked > old(asked) || old(Moderate()) ==> Moderate()
      ensures found.Some? && cutoffWeight != 0 ==> agenda.emptyWeight + Weight(found.value) <= cutoffWeight
    {
      hide *;
      while true
        invariant Valid() && reached >= old(reached) && returned == old(returned)
        invariant TotalWork(d, agenda.heap.arr) <= TotalWork(d, old(agenda.heap.arr))
        invariant candidatesConsidered - old(candidatesConsidered) == asked - old(asked) >= 0
        invariant asked > old(asked) || old(Moderate()) ==> Moderate()
        decreases TotalWork(d, agenda.heap.arr)
      {
        WhyStop();
        if TerminateSearch() != SearchContinue {
          return None;
        }
        found := Step();
        StillModerate();
        if found.Some? {
          BelowCutoff(found.value);
          return;
        }
      }
    }

    lemma BelowCutoff(c: Candidate)
      requires Accepted(c, reached) && Moderate()
      ensures cutoffWeight != 0 ==> agenda.emptyWeight + Weight(c) <= cutoffWeight
    {
      hide Weight, Domain.Admissible, Consistent, FaultySeeds;
    }

    /** When the search stops, and what has been established then. */
    lemma WhyStop()
      requires Valid()
      ensures TerminateSearch() == SearchContinue <==> agenda.heap.arr != [] && !Overrun() && !AllTooHeavy()
      ensures TerminateSearch() == SearchContinue ==>
        && (maxCandidates != 0 ==> candidatesConsidered <= maxCandidates)
        && forall w: nat :: cutoffWeight != 0 && NoneBelow(agenda.heap.arr, w) ==> w <= cutoffWeight
      ensures agenda.heap.arr == [] ==> forall s :: Target(s) ==> Contained(returned, s)
      ensures AllTooHeavy() ==> NothingLighter(returned, cutoffWeight + 1)
    {
      hide CbfsAgenda.Ready, Element.LeadsTo, Target, Contained, NothingLighter, Answerable, Recorded, FaultySeeds;
      if agenda.heap.arr != [] && agenda.heap.arr[0].weight > cutoffWeight {
        forall e | e in agenda.heap.arr ensures e.weight > cutoffWeight {
          var i :| 0 <= i < |agenda.heap.arr| && agenda.heap.arr[i] == e;
          agenda.heap.TopIsBest(agenda.heap.arr, i);
        }
      }
      if AllTooHeavy() { AgendaBound(agenda.heap.arr, cutoffWeight + 1); }
    }

    /** Opsat_CBFS::superset_candidate, for candidates without a state variable */
    method SupersetCandidate(c: Candidate, candidates: seq<Candidate>) returns (superset: bool)
      ensures superset <==> Contained(candidates, c)
    {
      for k := 0 to |candidates|
        invariant forall i :: 0 <= i < k ==> !Within(candidates[i], c)
      {
        if Within(candidates[k], c) {
          assert candidates[k] in candidates;
          return true;
        }
      }
      return false;
    }

    /** Consistent candidates, lightest first, none within a later one and none above weight w. */
    ghost predicate Diagnoses(found: seq<Candidate>, w: nat)
      reads this`seeds
    {
      && (forall i :: 0 <= i < |found| ==> Accepted(found[i], agenda.emptyWeight + Weight(found[i])))
      && (forall i, j :: 0 <= i < j < |found| ==> Weight(found[i]) <= Weight(found[j]) && !Within(found[i], found[j]))
      && (forall i :: 0 <= i < |found| ==> agenda.emptyWeight + Weight(found[i]) <= w)
    }

    /** Whatever contains a candidate returned so far contains one that was there before or one of those found. */
    static ghost predicate Summarizes(earlier: seq<Candidate>, found: seq<Candidate>, all: seq<Candidate>) {
      forall s :: Contained(all, s) ==> Contained(earlier, s) || Contained(found, s)
    }

    /** Opsat_CBFS::find_consistent_candidates, when there is no tracker to classify them */
    method FindConsistentCandidates(number: nat) returns (found: seq<Candidate>)
      requires Valid()
      modifies this`conflicts, this`candidatesConsidered, this`returned, this`reached, this`asked
      modifies agenda`lastPopped, agenda.heap
      modifies db`current, db.ltms`unsatisfied, db.ltms`undoList, db.ltms`trues, db.ltms`rank, db.ltms`timeStamp
      modifies db.ltms.fringe, db.ltms.volatileFringe
      modifies db.ltms.props`tv, db.ltms.props`supportedBy, db.ltms.props`slot, db.ltms.clauses`deleted
      modifies db.ltms.clauses`supports, db.ltms.clauses`satisfyingProp, db.ltms.clauses`numUnassigned
      modifies db.ltms.clauses`unsatisfied, db.ltms.clauses`inFringe, db.ltms.clauses`fringeIndex
      modifies db.ltms.clauses`timeStamp
      ensures Valid() && Diagnoses(found, reached) && |found| <= number
      ensures NothingLighter(old(returned) + found, reached)
      ensures |found| < number ==> agenda.heap.arr == [] || Overrun() || AllTooHeavy()
      ensures |found| < number && agenda.heap.arr == [] ==>
        forall s :: Target(s) ==> Contained(old(returned) + found, s)
      ensures |found| < number && AllTooHeavy() ==> NothingLighter(old(returned) + found, cutoffWeight + 1)
      ensures candidatesConsidered == asked - old(asked) >= |found| && (asked > old(asked) ==> Moderate())
      ensures cutoffWeight != 0 ==>
        forall i :: 0 <= i < |found| ==> agenda.emptyWeight + Weight(found[i]) <= cutoffWeight
    {
      hide *;
      candidatesConsidered := 0;
      found := [];
      FoundNone(returned);
      while |found| < number
        invariant Valid() && Diagnoses(found, reached) && |found| <= number
        invariant Summarizes(old(returned), found, returned)
        invariant candidatesConsidered == asked - old(asked) >= |found| && (asked > old(asked) ==> Moderate())
        decreases TotalWork(d, agenda.heap.arr)
      {
        ghost var before, w := returned, reached;
        var candidate := NextConsistentCandidate();
        if candidate.None? {
          NothingBelow();
          StillDiagnoses(found, w);
          Conclude(old(returned), found, returned);
          AllBelowCutoff(found);
          return;
        }
        var superset := SupersetCandidate(candidate.value, found);
        StillDiagnoses(found, w);
        FoundOne(old(returned), found, before, candidate.value, superset);
        if !superset {
          found := found + [candidate.value];
        }
      }
      NothingBelow();
      Conclude(old(returned), found, returned);
      AllBelowCutoff(found);
    }

    lemma AllBelowCutoff(found: seq<Candidate>)
      requires Diagnoses(found, reached) && (found != [] ==> Moderate())
      ensures cutoffWeight != 0 ==>
        forall i :: 0 <= i < |found| ==> agenda.emptyWeight + Weight(found[i]) <= cutoffWeight
    {
      hide Weight, Accepted, Within;
    }

    lemma StillDiagnoses(found: seq<Candidate>, w: nat)
      requires Diagnoses(found, w) && w <= reached
      ensures Diagnoses(found, reached)
    {
      hide Weight, Domain.Admissible, Domain.FaultsOnly, FaultySeeds, Within;
    }

    /** Every target that has not been reached yet is at least as heavy as what has. */
    lemma NothingBelow()
      requires Valid()
      ensures NothingLighter(returned, reached)
    {
      hide CbfsAgenda.Ready, Complete, NothingLighter, Answerable, Recorded, FaultySeeds;
      AgendaBound(agenda.heap.arr, reached);
    }

    lemma FoundNone(rs: seq<Candidate>)
      ensures Diagnoses([], reached) && Summarizes(rs, [], rs)
    {
    }

    lemma Conclude(earlier: seq<Candidate>, found: seq<Candidate>, all: seq<Candidate>)
      requires Summarizes(earlier, found, all)
      ensures forall w :: NothingLighter(all, w) ==> NothingLighter(earlier + found, w)
      ensures (forall s :: Target(s) ==> Contained(all, s)) ==> forall s :: Target(s) ==> Contained(earlier + found, s)
    {
      hide Target, Weight;
      forall s | Contained(all, s) ensures Contained(earlier + found, s) {
        BothContained(earlier, found, s);
      }
    }

    static lemma BothContained(earlier: seq<Candidate>, found: seq<Candidate>, s: Candidate)
      ensures Contained(earlier + found, s) <==> Contained(earlier, s) || Contained(found, s)
    {
      hide Within;
      if Contained(earlier, s) {
        var r :| r in earlier && Within(r, s);
        assert r in earlier + found;
      }
      if Contained(found, s) {
        var r :| r in found && Within(r, s);
        assert r in earlier + found;
      }
    }

    lemma FoundOne(earlier: seq<Candidate>, found: seq<Candidate>, before: seq<Candidate>, c: Candidate, superset: bool)
      requires Diagnoses(found, reached) && Summarizes(earlier, found, before)
      requires Accepted(c, reached) && superset == Contained(found, c)
      ensures Diagnoses(if superset then found else found + [c], reached)
      ensures Summarizes(earlier, if superset then found else found + [c], before + [c])
    {
      hide Weight, Target, Within, Domain.Admissible, Domain.FaultsOnly, FaultySeeds;
      forall s ensures Contained(before + [c], s) <==> Contained(before, s) || Contained([c], s) {
        BothContained(before, [c], s);
      }
      forall s | Contained([c], s) ensures Contained(if superset then found else found + [c], s) {
        if superset {
          var r :| r in found && Within(r, c);
          WithinTransitive(r, c, s);
        } else {
          BothContained(found, [c], s);
        }
      }
      forall s | Contained(found, s) ensures Contained(found + [c], s) {
        BothContained(found, [c], s);
      }
      if !superset {
        forall i | 0 <= i < |found| ensures !Within(found[i], c) {
          assert found[i] in found;
        }
      }
    }

    static lemma WithinTransitive(r: Candidate, c: Candidate, s: Candidate)
      requires Within(r, c) && Within(c, s)
      ensures Within(r, s)
    {
    }
  }
}
