# Livingstone 2, verified

This project models the reasoning core of Livingstone 2, a model-based diagnosis engine, together with the containers
and tools around it, and proves what each part is for. All of it is Dafny; `dafny verify dfyconfig.toml` checks it.

* **Truth maintenance** (`Logic.dfy`, `Tms.dfy`). The LTMS keeps a set of clauses, propagates units through them, records
  which clause supports which value, takes values back when a clause is retracted, and explains a contradiction by the
  assumptions that caused it. `Logic` states unit propagation from scratch, as a least fixed point over a set of clauses,
  and what models satisfy; `Tms` holds the mutable objects of the program, with a class invariant that ties every cached
  counter, flag, list and support pointer to the known literals. The main results: after `propagate` the values are
  exactly the literals that propagation from scratch derives from the current theory, whatever was added, removed and
  propagated before; it answers "inconsistent" exactly when propagation from scratch meets a falsified clause, and then
  the theory has no model; adding a clause, propagating and removing it again restores the old conclusions;
  `get_clause_support` finds exactly the least set of supporting clauses, across the wrap-around of the 16-bit time stamp;
  `last_conflict` blames exactly the assumptions among them, and these contradict the rest of the theory. Clauses that
  are not volatile come first: a volatile clause gives a value only when they have nothing more to say and refute no
  clause of the theory; and propagation stops with the first literal that falsifies a clause. The invariant
  covers any sequence of calls, also after `partial_propagate` has left values without recorded support.
* **Conflict-directed best-first search** (`Heap.dfy`, `Search.dfy`, `Consistency.dfy`, `Opsat.dfy`). The binary heap,
  the agenda with its lazily shifted elements, the conflict database, which asserts what a candidate makes in the LTMS,
  propagates and maps `last_conflict` back to assignments, and the search loop over all of them: `OpsatCbfs` searches
  with a real `ConflictDb` over a real `Ltms`. The main results: an expansion proposes every useful extension by a
  resolving assignment exactly once, lightest first; a candidate is returned exactly when propagation from scratch meets
  no conflict in the background together with everything that it makes; candidates come in nondecreasing weight; one
  that is returned is no heavier than any candidate that extends a seed, has a model together with the background and
  contains none of those returned before; when the agenda runs empty every such candidate contains one that was
  returned; it stops exactly when the agenda is empty, when more candidates than allowed have been put to the LTMS, or
  when everything left is above the cutoff. From a system in which no value rests on an assumption, a conflict blames no
  assumption that the other clauses imply, and a single one, which they refute, if they refute any. So no possible diagnosis is ever hidden, whatever the LTMS blames on the way.
* **Hash table** (`HashTable.dfy`). The bucketed table refines a map from keys to stacks of values: in any run of
  operations, duplicate insertion, erasing through iterators and asking for the size included, every operation gives
  back what such a map would; without duplicate insertion it gives back what a finite map would; a loop that erases through its iterator visits every entry once and leaves
  exactly the others.
* **DIMACS export** (`Dimacs.dfy`). The flat array has exactly the size computed for it, printing it gives the clauses
  back exactly when none of them is empty, and the exported problem has the models of its source.
* **Candidate histories** (`History.dfy`, `Diagnosis.dfy`). The dictionary coder for dotted names with 16-bit codes, and
  the grouping of assignments by time. The engine lets all histories share one dictionary although every history starts
  its counter at zero. For any number of histories on the same maps, without a bound on their tokens, the exact
  condition is proved under which the k-th one gives its rows back; for a history alone it is that it has no more than
  2^16 different tokens, and for the first of several that no later one brings another token besides.
* **Smaller cores**: `Prime.dfy` (modular exponentiation in 32-bit arithmetic, with the exact moduli for which it is
  right, and the base-2 pseudoprime test, with Fermat's little theorem), `Arrays.dfy` (the amortized cost of doubling,
  with the exact sizes up to which it holds),
  `Strings.dfy` (reference counts), `Sorting.dfy` (stable insertion sort), `Unquote.dfy` (what a quoted argument means),
  `Justifications.dfy` (the walk to the leaves of a justification graph). `Sequences.dfy`, `Options.dfy` and `Words.dfy`
  (the size of an `unsigned`) are shared.

Where the code and its documentation differ, the model follows the code:

* `partial_propagate` is documented as `propagate` in several calls, but it never calls `set_supports`. Its answer is
  right, but the clause of a value that it assigns (an orphan below) does not know that it supports it. A later
  `remove` takes back exactly the values that rest on the clause by recorded supports, so that an orphan stays whatever
  becomes of its clause. What is left is still forced, value by value, exactly if no orphan was forced by the clause or
  with the help of a value that rests on it (`Remove`); all values still follow from the theory exactly if those of the
  orphans do (`OrphansDecide`); and one assertion, one round and one `remove` leave a value in an empty theory
  (`ForgottenSupport`).
* The fringe is documented to give its first clause; `pop` takes the last one, and the model does the same.
* `BinaryHeap` is 0-based but uses `i >> 1` as the parent, so that the root has the one child 1. The order still holds.
* The second constructor of `CandidateHistory` is meant for sharing the dictionary between candidates; it is safe only
  under the condition of `HistoryKept`, and `MixedUp` reads one history back as another.
* `pseudoprime` is called a primality test but rejects the prime 2. For bases up to 2^16 its arithmetic is exact for the
  moduli up to 2^16 and those that divide 2^32, and for no others (`BoundIsExact`); it rejects the prime 65537
  (`RejectsPrime`).
* `Array` is documented to at least double when it grows, for amortized constant-time appending. The doubling wraps
  around once 2^31 elements have been allocated: copies stay within the capacity over all runs exactly if no size above
  2^31 is requested (`CopiesAmortized`, `WrapsAround`), and from there on every append to a full array copies all of it
  (`EveryPushCopies`).
* `exportTheory` prints the right lines exactly if no clause of the theory is empty (`ExportTheory`); the loop that
  prints a clause looks for the zero behind it only after the first number.
* `unquote` reads a string back from its quoted form exactly when the string does not end in a backslash.

Ghost parameters of the LTMS methods (`t`, `f`, `popped`, `extra`, `keep`, `orphans`) name the literals known true and
false, the clause that has just left the fringe, the propositions whose support is being changed, values that must
survive, and the propositions whose clauses do not know that they support them.

## Model

| member | source | states |
|---|---|---|
| Logic.GroundedDerived | mba/cpp/include/tms/ltms.h:24-30 | every value with a well-founded chain of forcing clauses is found by unit propagation from scratch |
| Logic.DerivedHolds | mba/cpp/include/tms/ltms.h:24-30 | what propagation derives holds in every model of the theory |
| Logic.ClosedComplete | mba/cpp/include/tms/ltms.h:24-30 | if no clause is unit or falsified, everything that propagation derives is already known |
| Logic.FalsifiedConflict | mba/cpp/include/tms/ltms.h:32-35 | a grounded assignment that falsifies a clause is a conflict that propagation from scratch meets |
| Logic.ConflictUnsatisfiable | mba/cpp/include/tms/ltms.h:32-35 | a propagation conflict means that the theory has no model |
| Logic.GivenDerivable | mba/cpp/include/tms/ltms.h:24-30 | if every value is forced by a clause or given, and propagation finds what is given, it finds every value |
| Logic.Confluence | mba/cpp/src/tms/ltms.cpp:307-324 | two grounded and closed assignments for the same theory are equal, so the order of propagation does not matter |
| Tms.Fringe.Push | mba/cpp/include/tms/ltms.h:463-466 | the clause is last in the fringe and its index says so |
| Tms.Fringe.Pop | mba/cpp/include/tms/ltms.h:468-476 | the last clause leaves the fringe and its flag is cleared |
| Tms.Fringe.Remove | mba/cpp/src/tms/ltms.cpp:45-55 | exactly that clause leaves, found by its index, and the last one takes its place with its index corrected |
| Tms.Ltms.InsertIntoFringe | mba/cpp/src/tms/ltms.cpp:83-88 | the clause is last in the fringe of its kind unless it was there, and the flags, indices and lists still agree |
| Tms.Ltms.RemoveFromFringe | mba/cpp/src/tms/ltms.cpp:94-99 | the clause is in no fringe, and the flags, indices and lists still agree |
| Tms.Ltms.GetFringeClause | mba/cpp/src/tms/ltms.cpp:105-109 | null exactly when both fringes are empty; otherwise the last clause of the fringe of its kind, with one unknown and no true literal, and volatile exactly if no other clause waits |
| Tms.Ltms.InsertIntoUnsat | mba/cpp/src/tms/ltms.cpp:119-125 | the clause is last in the unsatisfied list unless it was there |
| Tms.Ltms.RemoveFromUnsat | mba/cpp/src/tms/ltms.cpp:132-146 | the clause is found in the list, only it leaves, and the last one takes its place |
| Tms.Ltms.Add | mba/cpp/src/tms/ltms.cpp:156-184 | the theory grows by the clause, its status is computed afresh, the whole invariant holds, and values that were forced still are |
| Tms.Ltms.Remove | mba/cpp/src/tms/ltms.cpp:189-210 | the theory loses the clause; exactly the values that rest on it by recorded supports go, all others keep value and support; what is left is still forced exactly if no value without recorded support rests on what went |
| Tms.Ltms.Gone | mba/cpp/src/tms/ltms.cpp:497-514 | once the clause is out of the theory and the queue is empty, nothing that rested on it has a value |
| Tms.Ltms.IndependentsSpared | mba/cpp/src/tms/ltms.cpp:497-514 | values that do not rest on the clause rest only on one another |
| Tms.Ltms.AssignUpdateSameSense | mba/cpp/src/tms/ltms.cpp:414-435 | once every clause with the literal has been visited all caches are exact for the new values |
| Tms.Ltms.AssignUpdateOppositeSense | mba/cpp/src/tms/ltms.cpp:438-464 | the same for the literal that became false: units enter the fringe, falsified clauses the unsatisfied list |
| Tms.Ltms.Assign | mba/cpp/src/tms/ltms.cpp:482-490 | one more literal is known, all caches are exact, and the new value is forced by its clause |
| Tms.Ltms.UnassignUpdateSameSense | mba/cpp/src/tms/ltms.cpp:517-544 | all caches are exact without the value |
| Tms.Ltms.UnassignUpdateOppositeSense | mba/cpp/src/tms/ltms.cpp:547-574 | all caches are exact, and whatever a clause with the literal supported is queued to be undone |
| Tms.Ltms.Unassign | mba/cpp/src/tms/ltms.cpp:586-602 | strictly fewer literals are known, and everything not queued is still well supported |
| Tms.Ltms.UndoPropagations | mba/cpp/src/tms/ltms.cpp:508-514 | the queue is emptied, it terminates, values are only forgotten, and every value that is supported independently survives |
| Tms.Ltms.Propagate | mba/cpp/src/tms/ltms.cpp:306-324 | in any state, consistent means that propagation from scratch meets no conflict and that everything it derives is known; if the values were forced before, the known literals are exactly the derivable ones, and inconsistent means a conflict and no model; from any of the old values that leave the others to clauses that are not volatile, either no value comes from a volatile clause or everything that the other clauses derive rests on them alone and refutes no clause; it stops with the first literal that falsifies a clause, and terminates |
| Tms.Ltms.AllGiven | mba/cpp/include/tms/ltms.h:319-327 | all the old values together are such values, so that the preference holds of every call |
| Tms.Ltms.NowExhausted | mba/cpp/include/tms/ltms.h:319-327 | when only volatile clauses wait and none is unsatisfied, what the others derive from the given values is exactly what is known and rests on them |
| Tms.Ltms.PropagateOne | mba/cpp/src/tms/ltms.cpp:307-324 | one round either finds both fringes empty and changes no value, or makes one more literal known with its support recorded |
| Tms.Ltms.PartialStep | mba/cpp/src/tms/ltms.cpp:276-291 | one bounded round adds one value whose clause does not record that it supports it |
| Tms.Ltms.PartialPropagate | mba/cpp/src/tms/ltms.cpp:274-300 | its answer is right in any state; it makes as many rounds as allowed when it is not finished, fewer when it is finished and consistent, and never more; it leaves a value without recorded support exactly when there is something to do and at least one iteration allowed |
| Tms.Ltms.ForgottenSupport | mba/cpp/src/tms/ltms.cpp:274-300 | one unit clause, one iteration and the removal of the clause: the theory is empty, and the value stays although nothing derives it |
| Tms.Ltms.OrphansDecide | mba/cpp/src/tms/ltms.cpp:189-210 | in any state, after a removal too, all values follow from the theory exactly if those without recorded support do |
| Tms.Ltms.GroundedTheory | mba/cpp/include/tms/ltms.h:24-30 | in every reachable state the known literals are consistent, and as long as supports are recorded each is forced by a clause of the theory |
| Tms.Ltms.ClosedTheory | mba/cpp/src/tms/ltms.cpp:317-320 | with empty fringes and no unsatisfied clause no clause is unit or falsified |
| Tms.Ltms.Outcome | mba/cpp/include/tms/ltms.h:104-115 | what empty fringes and an unsatisfied clause mean for the theory, and what they mean when every value is forced |
| Tms.Ltms.HistoryIndependent | mba/cpp/src/tms/ltms.cpp:306-324 | two propagated systems with the same theory have the same values, whatever happened before |
| Tms.Ltms.AddAndRetract | mba/cpp/src/tms/ltms.cpp:156-210 | adding a clause, propagating and removing it again leaves exactly the old theory and the old conclusions |
| Tms.Ltms.GetClauseSupport | mba/cpp/src/tms/ltms.cpp:330-393 | whenever every value met on the way back has a supporter, as the code asserts, the result lists, once each, exactly the wanted clauses of the least set closed under tracing support back from the root, and that set is closed |
| Tms.Ltms.TraceIsLeast | mba/cpp/include/tms/ltms.h:137-160 | if support can be traced back from the root at all, what belongs to every set that is closed under tracing is such a set itself |
| Tms.Ltms.TraceClause | mba/cpp/src/tms/ltms.cpp:344-392 | one round visits the supporters of every literal of one clause and finds nothing outside the least traced set |
| Tms.Ltms.TraceSupport | mba/cpp/src/tms/ltms.cpp:348-390 | the supporter of one literal is visited once per cohort and is either reported or traced further |
| Tms.Ltms.NewCohort | mba/cpp/src/tms/ltms.cpp:337-342 | no clause has the new stamp, also after the stamp has wrapped around |
| Tms.Ltms.InitializeTimeStamps | mba/cpp/src/tms/ptheory.cpp:108-116 | every clause has the stamp zero |
| Tms.Ltms.ExplainClause | mba/cpp/src/tms/ltms.cpp:685-693 | exactly the wanted clauses of the least trace from the falsified clause, and that clause itself if it is wanted |
| Tms.Ltms.LastConflict | mba/cpp/src/tms/ltms.cpp:652-697 | in any state from which support can be traced back: empty for a consistent theory, otherwise exactly the assumptions of the least trace from the first unsatisfied clause, with that clause if it is one; if every value is forced they belong to the theory, come once each, and with one-literal assumptions contradict the rest of the theory |
| Tms.Ltms.FoundedTraceable | mba/cpp/src/tms/ltms.cpp:362-364 | while every value is forced, tracing back from an unsatisfied clause never meets a value without a supporter |
| Tms.Ltms.AgreesWithModel | mba/cpp/include/tms/ltms.h:137-160 | in any model of the background and the assumptions found, every value that the trace met is the true one |
| Tms.Ltms.ConflictSound | mba/cpp/src/tms/ltms.cpp:652-697 | a falsified clause and the assumptions traced from it leave the background without a model |
| Tms.Ltms.LeastBlame | mba/cpp/include/tms/ltms.h:319-327 | while volatile clauses came last, no assumption is blamed that the other clauses derive, unless these contradict one another, and at most one, which they refute, if they refute any clause of the theory |
| Tms.Ltms.SetSupports | mba/cpp/src/tms/clause.cpp:121-138 | the stored index denotes that proposition |
| Tms.Ltms.GetUnassignedLiteral | mba/cpp/src/tms/clause.cpp:155-169 | the one unknown literal of a fringe clause, all others being false |
| Tms.Ltms.FindSatisfyingProp | mba/cpp/src/tms/clause.cpp:172-181 | a proposition whose literal is true, or null exactly when the clause is not satisfied |
| Tms.Ltms.CountUnassigned | mba/cpp/src/tms/clause.cpp:217-223 | the number of unknown literals |
| Tms.Ltms.CreateProposition | mba/cpp/src/tms/ptheory.cpp:69-74 | a new unknown proposition in no clause; everything else holds as before |
| Tms.Ltms.CreateClause | mba/cpp/src/tms/ptheory.cpp:52-66 | the clause has its literals once each, its propositions know it, and it joins the theory if so asked |
| Tms.Ltms.EnterAll | mba/cpp/src/tms/clause.cpp:63-82 | after the clause has told its propositions, literals and occurrence lists agree for all clauses |
| Heap.BinaryHeap.Insert | mba/cpp/include/opsat/binaryheap.h:37-45 | the items are the old ones and the new one, in heap order |
| Heap.BinaryHeap.Pop | mba/cpp/include/opsat/binaryheap.h:48-54 | an item that nothing left is better than leaves; the rest is in heap order |
| Heap.BinaryHeap.Heapify | mba/cpp/include/opsat/binaryheap.h:88-115 | the order below the top is restored without changing the items |
| Heap.BinaryHeap.TopIsBest | mba/cpp/include/opsat/binaryheap.h:57 | with the parent of slot i in slot i / 2 nothing is better than slot 0 |
| Search.CbfsAgenda.ExactWeights | mba/cpp/include/opsat/agenda_types.h:79-84 | the unsigned sum is the weight of the proposal for every proper element exactly if no candidate, with one value for each variable at most, weighs 2^32 or more |
| Search.CbfsAgenda.Insert | mba/cpp/include/opsat/cbfs_agenda.h:92-103 | the element joins the heap with the weight of its proposal |
| Search.CbfsAgenda.PopCandidate | mba/cpp/src/opsat/cbfs_agenda.cpp:117-120 | a lightest element leaves and its prefix with its current assignment is the candidate |
| Search.CbfsAgenda.PopUselessAssignments | mba/cpp/src/opsat/cbfs_agenda.cpp:169-177 | exactly the useless assignments in front of the first useful one go |
| Search.CbfsAgenda.ResolvingAssignments | mba/cpp/src/conflict_db/conflict.cpp:28-34 | exactly the other values of the variables in the conflict, each once if the conflict names each variable once |
| Search.CbfsAgenda.OtherValues | mba/cpp/src/conflict_db/assignment.cpp:59-69 | exactly the other values of one variable |
| Search.CbfsAgenda.SortByWeight | mba/cpp/src/opsat/cbfs_agenda.cpp:141-146 | a permutation in ascending order of weight, without repeats if there were none |
| Search.CbfsAgenda.GetNewAssignments | mba/cpp/src/opsat/cbfs_agenda.cpp:130-152 | every useful assignment that resolves the conflict, lightest first, starting with a useful one, each once if the conflict names each variable once |
| Search.CbfsAgenda.InitializeAgenda | mba/cpp/src/opsat/cbfs_agenda.cpp:37-53 | the agenda holds exactly one element for each seed, or one for the empty candidate if there is none |
| Search.CbfsAgenda.AddChild | mba/cpp/src/opsat/cbfs_agenda.cpp:71-92 | the new element leads to every larger candidate that avoids the conflict, is no lighter, and will propose each useful resolving assignment exactly once, lightest first |
| Search.CbfsAgenda.AddSibling | mba/cpp/src/opsat/cbfs_agenda.cpp:94-107 | the element is shifted to its next useful assignment; it leads to every candidate that takes one of the later assignments and is no lighter |
| Search.CbfsAgenda.EachTurnOnce | mba/cpp/include/opsat/agenda_types.h:60-63 | shifting an element to its end proposes every useful extension of its prefix by one of its choices exactly once, in nondecreasing weight |
| Search.CbfsAgenda.TurnsInOrder | mba/cpp/src/opsat/cbfs_agenda.cpp:94-107 | exactly the useful choices get their turn, in ascending order and without repeats |
| Search.CbfsAgenda.ExpandElement | mba/cpp/src/opsat/cbfs_agenda.cpp:68-108 | nothing that the popped element leads to and that avoids the conflict is lost, nothing lighter is added, and less work is left |
| Search.Domain.AdmissibleLength | mba/cpp/include/opsat/agenda_types.h:139-148 | a candidate with at most one assignment for each variable has no more assignments than there are variables |
| Search.Domain.AdmissibleMore | mba/cpp/include/opsat/agenda_types.h:139-148 | a useful assignment keeps a candidate free of duplicates and of two values for a variable |
| Search.Domain.Resolution | mba/cpp/src/conflict_db/conflict.cpp:25-34 | a candidate that avoids a conflict of a smaller one contains a useful assignment that resolves it |
| Search.Domain.MakesOneEach | mba/cpp/src/conflict_db/conflict.cpp:25-34 | a conflict that a candidate makes names each variable once at most |
| Search.Element.ProposalAdmissible | mba/cpp/include/opsat/agenda_types.h:90-93 | the candidate of an element has one value for each variable at most, and no default if its prefix has none |
| Search.Element.Lightest | mba/cpp/include/opsat/agenda_types.h:60-63 | shifting through a sorted remainder never proposes anything heavier than what it still leads to |
| Search.WeightWithin | mba/cpp/src/conflict_db/candidate.cpp:281-290 | a candidate weighs no more than one that contains it |
| Opsat.OpsatCbfs.FindSubsumingConflict | mba/cpp/src/conflict_db/conflict_db.cpp:236-253 | the first known conflict within the given one, or none if there is none |
| Opsat.OpsatCbfs.AddConflict | mba/cpp/src/conflict_db/conflict_db.cpp:209-224 | if a known conflict is within the new one it takes its place and nothing is recorded; otherwise the new one is recorded; the record stays in increasing order of size, and all of it contradicts the background |
| Opsat.OpsatCbfs.Ask | mba/cpp/src/conflict_db/conflict_db.cpp:274-294 | the answer of the LTMS: none exactly when propagation from scratch meets no conflict in the background with all that the candidate makes; otherwise assignments that the candidate makes and that contradict the background |
| Opsat.OpsatCbfs.Step | mba/cpp/src/opsat/opsat.cpp:107-124 | one proposal of a lightest element, put to the LTMS and counted once: weights never decrease, no target is lost, and less work is left |
| Opsat.OpsatCbfs.constructor | mba/cpp/src/opsat/opsat.cpp:21-45 | the search over a connected database starts from the given candidates, or the empty one, with nothing returned and nothing lost |
| Opsat.OpsatCbfs.NextConsistentCandidate | mba/cpp/src/opsat/opsat.cpp:103-130 | the candidate returned is consistent in the LTMS, not above a nonzero cutoff, and no heavier than any candidate that extends a seed, has a model with the background and contains none of those returned before; without one, the agenda is empty, more candidates than a nonzero maximum have been considered, or everything on the agenda is above a nonzero cutoff; each candidate put to the LTMS is counted once; it terminates |
| Opsat.OpsatCbfs.WhyStop | mba/cpp/src/opsat/opsat.cpp:141-150 | the search goes on exactly if the agenda is not empty, no more than a nonzero maximum of candidates have been considered, and something is within a nonzero cutoff; an empty agenda means that every target contains a returned candidate; the cutoff means that every other target is heavier |
| Opsat.OpsatCbfs.FindConsistentCandidates | mba/cpp/src/opsat/opsat.cpp:52-65 | accepted candidates within the cutoff in order of weight, none within a later one, and no lighter target is missed; fewer than asked for only for one of the three reasons; the count of candidates starts at zero |
| Opsat.OpsatCbfs.SupersetCandidate | mba/cpp/src/opsat/opsat.cpp:208-218 | whether one of the candidates is contained in the new one |
| Opsat.OpsatCbfs.StillOnTheWay | mba/cpp/src/opsat/cbfs_agenda.cpp:56-67 | after an expansion every target still contains a returned candidate or is led to by an element |
| Opsat.OpsatCbfs.TargetConsistent | mba/cpp/src/conflict_db/conflict_db.cpp:272-294 | a candidate that has a model with the background is never turned down |
| Consistency.ConflictDb.CreateAssertions | mba/cpp/src/conflict_db/assignable.cpp:11-55 | every assignment gets a volatile clause with its one literal and its number, outside the theory, and the theory does not change |
| Consistency.ConflictDb.Unassign | mba/cpp/src/conflict_db/assignable.cpp:88-95 | the variable has no value, its clause has left the theory, and the background is the same |
| Consistency.ConflictDb.Assign | mba/cpp/src/conflict_db/assignable.cpp:76-85 | the variable has the value, the clauses in the theory are those of the current values, and the background is the same |
| Consistency.ConflictDb.RestoreDefaults | mba/cpp/src/conflict_db/conflict_db.cpp:299-305 | every variable has its default value, and the background is the same |
| Consistency.ConflictDb.AssignAll | mba/cpp/src/conflict_db/candidate.cpp:46-52 | from the defaults, the current values become exactly those that the candidate makes |
| Consistency.ConflictDb.Conflict | mba/cpp/src/conflict_db/conflict_db.cpp:272-294 | none exactly if propagation meets no conflict; otherwise current assignments, each once, that contradict the background |
| Consistency.ConflictDb.Ask | mba/cpp/src/opsat/opsat.cpp:110-115 | the theory becomes the background with everything that the candidate makes; there is a conflict exactly if propagation meets one in it, and it consists of assignments that the candidate makes and contradicts the background; from a system in which no value rests on a volatile clause, it blames none that the other clauses derive, unless these contradict one another, and at most one, which they refute, if they refute any clause of the theory |
| Consistency.PossibleAvoids | mba/cpp/src/conflict_db/conflict_db.cpp:272-294 | a conflict that contradicts the background rules out no candidate that has a model |
| HashTable.Table.constructor | mba/cpp/include/mba_utils/hash_table.h:161-187 | an empty table |
| HashTable.Table.Find | mba/cpp/include/mba_utils/hash_table.h:397-416 | the iterator stands at the newest entry of the key, or at the end exactly when there is none |
| HashTable.Table.Insert | mba/cpp/include/mba_utils/hash_table.h:418-452 | false exactly when the key is present, and then nothing changes; otherwise the key has that value and no other key is touched |
| HashTable.Table.InsertDuplicate | mba/cpp/include/mba_utils/hash_table.h:454-462 | the value is pushed on the stack of its key and no other key is touched |
| HashTable.Table.Erase | mba/cpp/include/mba_utils/hash_table.h:373-384 | the newest value of the key is popped, the one before it is visible again, and no other key is touched |
| HashTable.Table.EraseAt | mba/cpp/include/mba_utils/hash_table.h:386-395 | exactly the entry at the iterator goes and the iterator stands at the next one; its key loses that one of its values, no other key is touched, and without duplicates the map loses the key |
| HashTable.Table.EraseEntry | mba/cpp/include/mba_utils/hash_table.h:313-318 | the same for the iterator's own erase, also when it empties the last bucket |
| HashTable.Table.EraseAll | mba/cpp/include/mba_utils/hash_table.h:213-216 | no entry is left |
| HashTable.Table.Next | mba/cpp/include/mba_utils/hash_table.h:475-493 | the iterator moves on by one entry, skipping empty buckets, and stays at the end |
| HashTable.Table.Begin | mba/cpp/include/mba_utils/hash_table.h:346-356 | the iterator stands at the first entry, or at the end of an empty table |
| HashTable.Table.AtEnd | mba/cpp/include/mba_utils/hash_table.h:358-365 | comparing with end() tells exactly whether all entries are behind the iterator |
| HashTable.Table.Size | mba/cpp/include/mba_utils/hash_table.h:202-207 | the number of entries |
| HashTable.Table.Sweep | mba/cpp/include/mba_utils/hash_table.h:63-70 | erasing while iterating visits every entry exactly once, in order, and leaves exactly those not erased, for any choice |
| HashTable.Table.StackOfEntries | mba/cpp/include/mba_utils/hash_table.h:375-416 | every entry of a key is in its home bucket |
| HashTable.Table.MapAnswers | mba/cpp/include/mba_utils/hash_table.h:397-416 | without duplicates the table answers as the map of its entries |
| HashTable.Table.SizeOfMap | mba/cpp/include/mba_utils/hash_table.h:202-207 | without duplicates the size is the number of keys |
| HashTable.Table.TakeAt | mba/cpp/include/mba_utils/hash_table.h:386-395 | erasing through an iterator so many steps from begin takes one value out of the stack of one key, and gives back that entry; or nothing exactly if there are no more entries |
| HashTable.Table.Run | mba/cpp/include/mba_utils/hash_table.h:373-462 | in any run of insertions, duplicate insertions, searches, deletions by key and by iterator, clearings and questions for the size, every operation gives back what a map from keys to stacks would, and the table is left with its stacks |
| HashTable.EntriesTotal | mba/cpp/include/mba_utils/hash_table.h:202-207 | the entries are as many as the values in all stacks together |
| HashTable.Table.RunOnMap | mba/cpp/include/mba_utils/hash_table.h:373-452 | without duplicate insertion every operation of a run gives back what a finite map would, and the table is left with its entries |
| HashTable.StepOfMap | mba/cpp/include/mba_utils/hash_table.h:373-452 | on stacks of one value each, every step but a duplicate insertion is one of the map of these values |
| Primality.ModularExponentiation | mba/cpp/include/mba_utils/prime.h:21-48 | a^b mod n whenever the modulus divides 2^32 or both it and the base are at most 2^16, and beyond that what 32-bit arithmetic makes of it |
| Primality.ExponentiationCorrect | mba/cpp/include/mba_utils/prime.h:21-48 | that is a^b mod n for every 32-bit b, as long as n divides 2^32 or a and n are at most 2^16 |
| Primality.NoOverflow | mba/cpp/include/mba_utils/prime.h:41-43 | in every round, for every base up to 2^16 and every exponent, both products stay below 2^32 exactly if the modulus is at most 2^16 |
| Primality.BoundIsExact | mba/cpp/include/mba_utils/prime.h:21-48 | for bases up to 2^16 the loop gives the power exactly if the modulus is at most 2^16 or divides 2^32; otherwise it already fails for base 2 |
| Primality.Fermat | mba/cpp/include/mba_utils/prime.h:50-57 | 2^(p-1) leaves 1 modulo every odd prime p |
| Primality.Pseudoprime | mba/cpp/include/mba_utils/prime.h:50-57 | 1 and every even number fail; up to 2^16 every odd prime passes, and the answer is the remainder of 2^(n-1); beyond, what the machine computes |
| Primality.RejectsPrime | mba/cpp/include/mba_utils/prime.h:50-57 | 65537 is prime, 2^65536 leaves 1, and the test rejects it |
| Primality.WrapsToZero | mba/cpp/include/mba_utils/prime.h:41-43 | for every modulus above 2^16 the power of 2 with exponent 2^j, j from 5 on, comes out as 0 |
| Primality.FactorForm | mba/cpp/include/mba_utils/prime.h:50-57 | every prime factor of 65537 leaves 1 modulo 32 |
| Dimacs.Exporter.BuildTheory | mba/cpp/include/debuggers/DIMACSExporter.h:177-202 | the arrays hold the non-singleton clauses, the modes and the observables, in order |
| Dimacs.Exporter.PropositionIndex | mba/cpp/include/debuggers/DIMACSExporter.h:268-278 | the 1-based place of the first occurrence, or 0 |
| Dimacs.Exporter.WffArraySize | mba/cpp/include/debuggers/DIMACSExporter.h:88-99 | the exact length of the encoded problem |
| Dimacs.Exporter.GetWff | mba/cpp/include/debuggers/DIMACSExporter.h:105-171 | the array holds the encoded problem, without a gap or an overrun |
| Dimacs.Exporter.PrintTheory | mba/cpp/include/debuggers/DIMACSExporter.h:70-79 | for any array, what the loops print, or a read beyond the array |
| Dimacs.Exporter.ExportTheory | mba/cpp/include/debuggers/DIMACSExporter.h:62-82 | the counts in the header are right, every number lies between 1 and the variable count in absolute value, the lines are printed exactly if no clause of the theory is empty, and they have the models of the source |
| Dimacs.RoundTrip | mba/cpp/include/debuggers/DIMACSExporter.h:70-79 | printing gives the clauses back exactly when none of them is empty |
| Dimacs.Exporter.InRange | mba/cpp/include/debuggers/DIMACSExporter.h:105-171 | a line is empty only for an empty clause, and every number is that of a listed proposition or its opposite |
| Dimacs.Exporter.SameModels | mba/cpp/include/debuggers/DIMACSExporter.h:105-202 | the exported problem holds of the numbers of a set of propositions exactly when of the set every clause with more or fewer literals than one holds, the value of every variable of the first time step that turns into a mode, and for every other variable observed now its current assignment, or its value if there is none |
| Dimacs.Exporter.EveryNumbering | mba/cpp/include/debuggers/DIMACSExporter.h:260-278 | every set of numbers stands for a set of propositions |
| Dimacs.Exporter.EveryModel | mba/cpp/include/debuggers/DIMACSExporter.h:260-278 | every set of propositions has a set of numbers |
| History.NameRoundTrip | l2-tools/groundworks/src/livdll/CandidateHistory.java:78-102 | a name comes back exactly when it has no hash sign and no empty component |
| History.BehindHash | l2-tools/groundworks/src/livdll/CandidateHistory.java:78-81 | of a name with a hash sign, what stands behind the first one comes back exactly when it has no empty component |
| History.TokensBoth | l2-tools/groundworks/src/livdll/CandidateHistory.java:82-90 | the tokens of a name are those before and those behind any dot, and a piece without a dot is one token |
| History.AssignmentRoundTrip | l2-tools/groundworks/src/livdll/CandidateHistory.java:50-112 | an assignment comes back exactly when its name does and its time fits in a short |
| History.HistoryRoundTrip | l2-tools/groundworks/src/livdll/CandidateHistory.java:27-61 | with its own maps a history of clean rows comes back exactly if it has no more than 2^16 different tokens |
| History.StaysInverse | l2-tools/groundworks/src/livdll/CandidateHistory.java:64-72 | the two maps stay inverse to each other while one history grows them, wrap-around included |
| History.OneHistory | l2-tools/groundworks/src/livdll/CandidateHistory.java:38-72 | a history on maps in any state numbers its new tokens in order; a new token can be decoded until the counter has come around, and an old one can be decoded exactly if it could before and no new token took its code |
| History.TokenKept | l2-tools/groundworks/src/livdll/CandidateHistory.java:38-72 | after any number of histories on the same maps a token can be decoded exactly if each of them has brought no more new tokens than came before it in its own history, or in its own one fewer than 2^16 behind it |
| History.HistoryKept | l2-tools/groundworks/src/livdll/CandidateHistory.java:38-72 | the k-th of any number of histories on the same maps comes back exactly if all of them spare each of its tokens in this way |
| History.HistoriesKept | l2-tools/groundworks/src/livdll/CandidateHistory.java:38-72 | the first of any number of histories comes back exactly if it has no more than 2^16 different tokens and none of the others brings another one, and then all of them come back |
| History.RowsBackIff | l2-tools/groundworks/src/livdll/CandidateHistory.java:50-62 | with clean names and short times the rows come back exactly if every token can still be decoded |
| History.JoinDetermines | l2-tools/groundworks/src/livdll/CandidateHistory.java:94-102 | a joined name determines its tokens, so that no wrong decoding can hide in it |
| History.ShareMaps | l2-tools/groundworks/src/livdll/LivingstoneEngine.java:100-151 | the objects themselves: after any number of histories built on the same maps, the k-th is read back right exactly if all of them spare its tokens |
| History.MixedUp | l2-tools/groundworks/src/livdll/CandidateHistory.java:38-72 | two histories of one assignment each on the same maps: the first is read back as the second |
| History.CandidateHistory.constructor | l2-tools/groundworks/src/livdll/CandidateHistory.java:38-48 | every token is entered in order and every row is stored under the codes of the resulting dictionary |
| History.CandidateHistory.GetTokenShort | l2-tools/groundworks/src/livdll/CandidateHistory.java:64-72 | a known token keeps its code, a new one gets the counter |
| History.CandidateHistory.GetTokenPathShortArray | l2-tools/groundworks/src/livdll/CandidateHistory.java:78-92 | the codes of the components behind the first hash sign |
| History.CandidateHistory.GetTokenPath | l2-tools/groundworks/src/livdll/CandidateHistory.java:94-102 | the tokens joined by dots |
| History.CandidateHistory.GetAttributeAssignment | l2-tools/groundworks/src/livdll/CandidateHistory.java:50-62 | every stored assignment expanded with the current maps |
| History.StoreAndReload | l2-tools/groundworks/src/livdll/CandidateHistory.java:27-62 | storing clean rows on fresh maps and reading them back gives the same rows exactly if they have no more than 2^16 different tokens |
| Diagnosis.Group | l2-tools/groundworks/src/livdll/LivingstoneEngine.java:113-131 | each list holds what was reported for its time, wherever the search places an assignment |
| Diagnosis.GetHistory | l2-tools/groundworks/src/livdll/LivingstoneEngine.java:113-150 | the rows partition what was reported within the window, each assignment once and in its own row; a window of negative size fails |
| Arrays.Array.Ensure | mba/cpp/include/mba_utils/array.h:174-192 | room for the size, same contents, and the account of capacity and copies goes on as it says |
| Arrays.Array.Push | mba/cpp/include/mba_utils/array.h:103-107 | the element is last |
| Arrays.Array.Pop | mba/cpp/include/mba_utils/array.h:116-120 | the last element leaves |
| Arrays.Array.Remove | mba/cpp/include/mba_utils/array.h:133-142 | exactly one occurrence of the element leaves and the last one takes its place |
| Arrays.Array.GrowAndSet | mba/cpp/include/mba_utils/array.h:87-93 | the element is set, the array is long enough, every other old element is kept |
| Arrays.Array.Erase | mba/cpp/include/mba_utils/array.h:55-59 | an empty array, and the account of copies starts again |
| Arrays.CopiesAmortized | mba/cpp/include/mba_utils/array.h:168-173 | over all runs that request no size above a bound, never more elements have been copied than there is room for, exactly if the bound is at most 2^31 |
| Arrays.RunSound | mba/cpp/include/mba_utils/array.h:168-192 | in any run the room is less than twice the largest size requested, and the copies are within the room while no size above 2^31 was |
| Arrays.EveryPushCopies | mba/cpp/include/mba_utils/array.h:103-107 | appending n elements to a full array of 2^31 or more copies quadratically many |
| Arrays.Replay | mba/cpp/include/mba_utils/array.h:87-142 | every run on a real array has the cost that the account says |
| Arrays.WrapsAround | mba/cpp/include/mba_utils/array.h:174-192 | five calls on a real array after which 3 * 2^30 elements have been copied and there is room for 2^31 + 1 |
| Strings.Program.Construct | mba/cpp/include/mba_utils/MBA_string.h:130-131 | a new handle with a value of its own |
| Strings.Program.Copy | mba/cpp/include/mba_utils/MBA_string.h:136-138 | a new handle that shares the value |
| Strings.Program.Destroy | mba/cpp/include/mba_utils/MBA_string.h:169-172 | the value is freed exactly with its last handle |
| Strings.Program.Assign | mba/cpp/include/mba_utils/MBA_string.h:292-305 | the handles share the value, the old one is freed exactly if nobody else used it, and self-assignment changes nothing |
| Strings.Program.AssignText | mba/cpp/include/mba_utils/MBA_string.h:307-316 | the handle has a new value, and the old one is freed exactly if nobody else used it |
| Strings.Program.Concatenate | mba/cpp/include/mba_utils/MBA_string.h:278-281 | a new handle with both texts |
| Strings.Program.Equal | mba/cpp/include/mba_utils/MBA_string.h:234-238 | equal exactly when the characters are |
| Strings.Program.NothingLeaks | mba/cpp/include/mba_utils/MBA_string.h:94-118 | when the last handle is gone every value has been freed |
| Sorting.InsertSorted | mba/cpp/include/mba_utils/algos.h:37-51 | a sorted list that keeps the order of equal elements, the new one last among them |
| Sorting.Sort | mba/cpp/include/mba_utils/algos.h:59-69 | sorted, a permutation, and stable, for any strict weak order |
| Unquote.Unquote | l2-tools/stanley-jmpl/src/redir/redir.c:73-101 | the buffer holds the unquoted text and a NUL, and the text is no longer than the argument |
| Unquote.UnquotedArgument | l2-tools/stanley-jmpl/src/redir/redir.c:103-114 | the buffer allocated is large enough for every argument, and holds what the tokens mean that the argument is written with |
| Unquote.ReadsBack | l2-tools/stanley-jmpl/src/redir/redir.c:78-100 | whatever is written in pieces, in either kind of quote or in none, with backslashes before quotes, is read as it is meant, up to the first whitespace outside quotes; a quote of the other kind inside quotes stands for itself |
| Unquote.Tokenized | l2-tools/stanley-jmpl/src/redir/redir.c:78-100 | every argument is written so |
| Unquote.BareText | l2-tools/stanley-jmpl/src/redir/redir.c:78 | text without quotes, backslashes and whitespace is copied up to the first whitespace or the end |
| Unquote.Joined | l2-tools/stanley-jmpl/src/redir/redir.c:78-100 | pieces written one behind the other are joined |
| Unquote.RoundTrip | l2-tools/stanley-jmpl/src/redir/redir.c:73-101 | in either kind of quote, with both kinds escaped, a string comes back exactly when it does not end in a backslash |
| Justifications.Engine.GetJustification | l2-tools/java/src/livdll/AttributeAssignment.java:170-202 | the antecedents that the engine gives, kept from then on |
| Justifications.Engine.AddLeaves | l2-tools/java/src/livdll/AttributeAssignment.java:293-303 | the ends of all ways down are appended, whatever was kept before |
| Justifications.Engine.ChildLeafAttributeAssignments | l2-tools/java/src/livdll/AttributeAssignment.java:284-292 | the ends of all ways that lead strictly down; it terminates |
| Justifications.Engine.LeavesReachable | l2-tools/java/src/livdll/AttributeAssignment.java:282-303 | what is found is exactly what has no antecedents and can be reached |
| Justifications.Engine.RoutesAreWays | l2-tools/java/src/livdll/AttributeAssignment.java:293-303 | the walk follows exactly the chains of antecedents that end in a leaf |
| Justifications.Engine.RoutesDistinct | l2-tools/java/src/livdll/AttributeAssignment.java:293-303 | no chain is followed twice if no antecedent list names anyone twice |

## Left out

- `LTMS::move_support`, `transfer_clauses`, `finish_destroying` and `initialize`: rewiring and bulk deletion are not part of this model; neither are listeners, checkpoints and printing.
- Tms.Ltms.CreateClause: requires at most 127 literals, because the program counts them in a signed char; the code has no check and longer clauses would wrap.
- Tms.Ltms.Remove: whether a value is still forced is stated for its own supporting clause and order of assignment; another clause may force it as well, which `OrphansDecide` covers.
- Tms.Ltms.LastConflict: that the conflict contradicts the background is stated for wanted clauses with one literal, as the assumption clauses of the engine are.
- Search.CbfsAgenda.InitializeAgenda: seeds give each variable of the domain one value at most, as every candidate of the engine does. The searches assume that no candidate weighs 2^32 or more, and
  `ExactWeights` proves that this is what exact weights take.
- Consistency.ConflictDb.Ask: how little it blames is stated for a system in which no value comes from a volatile clause yet; in other states `Propagate` states the preference relative to the old values. Only assumption variables are numbered; the clauses of commands and observations are part of the background, which is held fixed between questions.
- Opsat.OpsatCbfs.SupersetCandidate: containment of assignments only; the trajectories of state variables are not compared.
- Opsat.OpsatCbfs.FindConsistentCandidates: without the tracker's classes and without state variables, whose trajectories decide containment in `supersetWithState`.
- `CBFSElement` is modelled as a value that is replaced when it is shifted; the program changes the object between popping and inserting it.
- Arrays.Array.Push: requested sizes stay below 2^32; the size itself is an `unsigned` and the code does not check it.
- HashTable.Table.Find: iterators are positions in buckets, so that the pointer to the previous item, and what becomes of an iterator held across an insertion into its bucket, are not modelled.
- Dimacs.Exporter.ExportTheory: stream formatting other than the sequence of numbers; the proposition list is assumed to contain every proposition of a clause or variable, once.
- `LivingstoneEngine.getDiagnosis`: the calls into the engine are the reported list; nothing is claimed about the order within a row.
- Strings.Program.AssignText: the characters assigned must not belong to the string's own buffer, which may be freed before they are copied.
- Justifications.Engine.GetJustification: the name of the proposition, which depends on its time, and the split into positive and negative antecedents are left out; the engine's answer is one list.
- Justifications.Engine.AddLeaves: assignment objects are values that come back with what they have kept; result lists hold propositions. The engine's answers must not change and justifications must be acyclic.
- Unquote.Unquote: `isspace` is that of the C locale; a negative character, for which the call is undefined, does not occur.
- Allocation failure, memory pools, threads, and the T_system with its trackers are not part of this model.
