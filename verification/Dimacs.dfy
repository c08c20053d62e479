/** Export of a theory to the DIMACS cnf format: a flat array of numbers with a zero after every clause. */
module Dimacs {
  import opened Options
  import opened Sequences

  /** A clause lists propositions by identity. */
  datatype Clause = Clause(positive: seq<nat>, negative: seq<nat>) {
    function Literals(): nat { |positive| + |negative| }
  }

  /** A variable, with the proposition of each of its values. */
  datatype Variable = Variable(
    props: seq<nat>, value: Option<nat>, current: Option<nat>,
    timeStep: nat, dependent: bool, observable: bool, now: bool, transitioned: seq<bool>)

  type Line = seq<int>

  /** A clause as its line says it, without the zero at the end. */
  function Flat(lines: seq<Line>): seq<int> {
    if lines == [] then [] else Flat(lines[..|lines|-1]) + lines[|lines|-1] + [0]
  }

  lemma {:induction false} FlatSplit(lines: seq<Line>, k: nat)
    requires k <= |lines|
    ensures Flat(lines) == Flat(lines[..k]) + Flat(lines[k..])
  {
    var n := |lines| - 1;
    if k == |lines| {
      assert lines[..k] == lines && lines[k..] == [];
    } else {
      FlatSplit(lines[..n], k);
      assert lines[..n][..k] == lines[..k] && lines[k..][..n-k] == lines[..n][k..];
    }
  }

  lemma FlatFirst(lines: seq<Line>)
    requires lines != []
    ensures Flat(lines) == lines[0] + [0] + Flat(lines[1..])
  {
    FlatSplit(lines, 1);
    assert lines[..1] == [lines[0]] && lines[..1][..0] == [];
  }

  // ---------- reading back ----------

  /** The do/while loop that prints one line: it looks for the zero only after it has printed a number. */
  function PrintLine(wff: seq<int>, i: nat): Option<(Line, nat)>
    decreases |wff| - i
  {
    if i + 1 >= |wff| then None
    else if wff[i + 1] == 0 then Some(([wff[i]], i + 2))
    else
      var rest := PrintLine(wff, i + 1);
      if rest.None? then None else Some(([wff[i]] + rest.value.0, rest.value.1))
  }

  /** What is printed for the last so many clauses, or None if the loop runs out of the array. */
  function Print(wff: seq<int>, i: nat, clauses: nat): Option<seq<Line>>
    decreases clauses
  {
    if clauses == 0 then Some([])
    else
      var line := PrintLine(wff, i);
      if line.None? then None
      else
        var rest := Print(wff, line.value.1, clauses - 1);
        if rest.None? then None else Some([line.value.0] + rest.value)
  }

  /** What has been printed and what is printed from here on. */
  ghost function Behind(lines: seq<Line>, rest: Option<seq<Line>>): Option<seq<Line>> {
    if rest.None? then None else Some(lines + rest.value)
  }

  lemma NothingBefore(rest: Option<seq<Line>>)
    ensures rest == Behind([], rest)
  {
    if rest.Some? { assert [] + rest.value == rest.value; }
  }

  lemma OneLineMore(lines: seq<Line>, wff: seq<int>, i: nat, clauses: nat)
    ensures clauses == 0 ==> Behind(lines, Print(wff, i, clauses)) == Some(lines)
    ensures clauses > 0 ==>
      var line := PrintLine(wff, i);
      Behind(lines, Print(wff, i, clauses)) ==
        if line.None? then None else Behind(lines + [line.value.0], Print(wff, line.value.1, clauses - 1))
  {
    hide PrintLine;
    if clauses == 0 {
      assert lines + [] == lines;
    } else if PrintLine(wff, i).Some? {
      var line := PrintLine(wff, i).value;
      var rest := Print(wff, line.1, clauses - 1);
      if rest.Some? { assert lines + ([line.0] + rest.value) == lines + [line.0] + rest.value; }
    }
  }

  ghost function Continued(numbers: Line, rest: Option<(Line, nat)>): Option<(Line, nat)> {
    if rest.None? then None else Some((numbers + rest.value.0, rest.value.1))
  }

  lemma NoNumberBefore(rest: Option<(Line, nat)>)
    ensures rest == Continued([], rest)
  {
    if rest.Some? { assert [] + rest.value.0 == rest.value.0; }
  }

  lemma OneNumberMore(numbers: Line, wff: seq<int>, i: nat)
    requires i + 1 < |wff| && wff[i + 1] != 0
    ensures Continued(numbers, PrintLine(wff, i)) == Continued(numbers + [wff[i]], PrintLine(wff, i + 1))
  {
    var rest := PrintLine(wff, i + 1);
    if rest.Some? { assert numbers + ([wff[i]] + rest.value.0) == numbers + [wff[i]] + rest.value.0; }
  }

  ghost predicate NoneEmpty(lines: seq<Line>) {
    forall k :: 0 <= k < |lines| ==> lines[k] != []
  }

  ghost predicate Encodable(lines: seq<Line>) {
    forall k :: 0 <= k < |lines| ==> NoZeros(lines[k])
  }

  ghost predicate NoZeros(line: Line) {
    forall k :: 0 <= k < |line| ==> line[k] != 0
  }

  /** A line is printed as it was encoded, and printing stops behind its zero. */
  lemma {:induction false} PrintLineBack(line: Line, before: seq<int>, after: seq<int>, k: nat)
    requires k < |line| && NoZeros(line)
    ensures PrintLine(before + line + [0] + after, |before| + k) == Some((line[k..], |before| + |line| + 1))
    decreases |line| - k
  {
    var wff, i := before + line + [0] + after, |before| + k;
    assert wff[i] == line[k];
    if k == |line| - 1 {
      assert wff[i + 1] == 0 && line[k..] == [line[k]];
    } else {
      PrintLineBack(line, before, after, k + 1);
      assert wff[i + 1] == line[k + 1] && line[k..] == [line[k]] + line[k+1..];
    }
  }

  lemma {:induction false} PrintBack(before: seq<int>, lines: seq<Line>)
    requires NoneEmpty(lines) && Encodable(lines)
    ensures Print(before + Flat(lines), |before|, |lines|) == Some(lines)
    decreases |lines|
  {
    if lines != [] {
      var line, rest := lines[0], lines[1..];
      FlatFirst(lines);
      assert before + Flat(lines) == before + line + [0] + Flat(rest);
      PrintLineBack(line, before, Flat(rest), 0);
      assert line[0..] == line;
      PrintBack(before + line + [0], rest);
      assert lines == [line] + rest;
    }
  }

  /** The loop never prints an empty line. */
  lemma {:induction false} NeverEmpty(wff: seq<int>, i: nat, clauses: nat)
    ensures Print(wff, i, clauses).Some? ==> NoneEmpty(Print(wff, i, clauses).value)
    decreases clauses
  {
    if clauses > 0 && PrintLine(wff, i).Some? {
      NeverEmpty(wff, PrintLine(wff, i).value.1, clauses - 1);
    }
  }

  /** Printing gives the clauses back exactly when none of them is empty. */
  lemma RoundTrip(lines: seq<Line>)
    requires Encodable(lines)
    ensures Print(Flat(lines), 0, |lines|) == Some(lines) <==> NoneEmpty(lines)
  {
    NeverEmpty(Flat(lines), 0, |lines|);
    if NoneEmpty(lines) {
      PrintBack([], lines);
      assert [] + Flat(lines) == Flat(lines);
    }
  }

  // ---------- what clauses and lines mean ----------

  /** A DIMACS clause holds when it names a true number or the opposite of one that is not true. */
  ghost predicate LineHolds(line: Line, m: iset<int>) {
    exists k :: 0 <= k < |line| && if line[k] > 0 then line[k] in m else -line[k] !in m
  }

  ghost predicate ClauseHolds(c: Clause, m: iset<nat>) {
    (exists p :: p in c.positive && p in m) || exists p :: p in c.negative && p !in m
  }

  class Exporter {
    const propositions: seq<nat>
    const theory: seq<Clause>
    const variables: seq<Variable>
    var clauses: seq<Clause>
    var initialModes: seq<Variable>
    var futureObservations: seq<Variable>

    constructor (propositions: seq<nat>, theory: seq<Clause>, variables: seq<Variable>)
      ensures this.propositions == propositions && this.theory == theory && this.variables == variables
      ensures clauses == [] && initialModes == [] && futureObservations == []
    {
      this.propositions, this.theory, this.variables := propositions, theory, variables;
      clauses, initialModes, futureObservations := [], [], [];
    }

    /** Every proposition that a clause or a variable mentions is in the list, and the list has no duplicates. */
    ghost predicate Closed() {
      && NoDuplicates(propositions)
      && (forall c, p :: c in theory && (p in c.positive || p in c.negative) ==> p in propositions)
      && (forall v :: v in variables ==> (v.value.Some? ==> v.value.value in propositions))
      && (forall v, p :: v in variables && p in v.props ==> p in propositions)
      && (forall v :: v in variables && v.current.Some? ==> v.current.value < |v.props|)
    }

    /** DIMACSExporter::propositionIndex */
    method PropositionIndex(p: nat) returns (index: int)
      ensures index == Index(p)
    {
      index := 1;
      while index - 1 < |propositions|
        invariant 1 <= index <= |propositions| + 1 && p !in propositions[..index-1]
      {
        if propositions[index - 1] == p {
          IndexIs(p, index - 1);
          return;
        }
        index := index + 1;
      }
      index := 0;
    }

    /** The 1-based number of a proposition, or 0. */
    ghost function Index(p: nat): (index: int)
      ensures p in propositions ==>
        1 <= index <= |propositions| && propositions[index - 1] == p && p !in propositions[..index - 1]
      ensures p !in propositions ==> index == 0
    {
      if p in propositions then First(propositions, p) + 1 else 0
    }

    lemma IndexIs(p: nat, i: nat)
      requires i < |propositions| && propositions[i] == p && p !in propositions[..i]
      ensures Index(p) == i + 1
    {
    }

    // ---------- the exported problem ----------

    /** A clause with one literal is exported only as a mode or an observation. */
    function Singleton(c: Clause): bool {
      |c.positive| + |c.negative| == 1
    }

    function NonSingletons(cs: seq<Clause>): seq<Clause> {
      if cs == [] then []
      else NonSingletons(cs[..|cs|-1]) + if Singleton(cs[|cs|-1]) then [] else [cs[|cs|-1]]
    }

    /** DIMACSExporter::isInitialMode: a variable of the first time step that turns into a mode later on */
    function InitialMode(v: Variable): bool {
      v.timeStep == 1 && v.dependent && true in v.transitioned
    }

    function Collected(vs: seq<Variable>, modes: bool): seq<Variable> {
      if vs == [] then []
      else
        var v := vs[|vs|-1];
        Collected(vs[..|vs|-1], modes) +
        if v.value.Some? && InitialMode(v) == modes && (modes || (v.observable && v.now)) then [v] else []
    }

    /** Whether the theory has been copied into the intermediate arrays */
    ghost predicate Built()
      reads this
    {
      && clauses == NonSingletons(theory)
      && initialModes == Collected(variables, true) && futureObservations == Collected(variables, false)
    }

    method BuildTheory()
      requires clauses == [] && initialModes == [] && futureObservations == []
      modifies this
      ensures Built()
    {
      for k := 0 to |theory|
        invariant clauses == NonSingletons(theory[..k]) && initialModes == [] && futureObservations == []
      {
        assert theory[..k+1][..k] == theory[..k];
        if !Singleton(theory[k]) {
          clauses := clauses + [theory[k]];
        }
      }
      assert theory[..|theory|] == theory;
      for k := 0 to |variables|
        invariant clauses == NonSingletons(theory)
        invariant initialModes == Collected(variables[..k], true)
        invariant futureObservations == Collected(variables[..k], false)
      {
        assert variables[..k+1][..k] == variables[..k];
        var v := variables[k];
        if v.value.Some? {
          if InitialMode(v) {
            initialModes := initialModes + [v];
          } else if v.observable && v.now {
            futureObservations := futureObservations + [v];
          }
        }
      }
      assert variables[..|variables|] == variables;
    }

    function GetClauseCount(): nat
      reads this
    {
      |clauses| + |initialModes| + |futureObservations|
    }

    /** The proposition that stands for what is observed: that of the current assignment, or of the current value. */
    function Observed(v: Variable): nat
      requires v.value.Some? && (v.current.Some? ==> v.current.value < |v.props|)
    {
      if v.current.Some? then v.props[v.current.value] else v.value.value
    }

    ghost function Numbers(ps: seq<nat>): Line {
      seq(|ps|, i requires 0 <= i < |ps| => Index(ps[i]))
    }

    ghost function Opposites(line: Line): Line {
      seq(|line|, i requires 0 <= i < |line| => -line[i])
    }

    ghost function LineOf(c: Clause): Line {
      Numbers(c.positive) + Opposites(Numbers(c.negative))
    }

    ghost function ClauseLines(cs: seq<Clause>): seq<Line> {
      seq(|cs|, i requires 0 <= i < |cs| => LineOf(cs[i]))
    }

    /** The collected variables have a value, and their current assignment is one of theirs. */
    ghost predicate Observable()
      reads this
    {
      forall v :: v in initialModes || v in futureObservations ==>
        v.value.Some? && (v.current.Some? ==> v.current.value < |v.props|)
    }

    /** The propositions asserted by a clause of their own. */
    ghost function Units(): seq<nat>
      requires Observable()
      reads this
    {
      var modes, observations := initialModes, futureObservations;
      seq<nat>(|modes|, i requires 0 <= i < |modes| && modes[i].value.Some? => modes[i].value.value) +
      seq<nat>(|observations|, i
        requires 0 <= i < |observations| && observations[i] in observations && observations[i].value.Some?
        requires observations[i].current.Some? ==> observations[i].current.value < |observations[i].props|
        => Observed(observations[i]))
    }

    /** The exported problem, one line for each clause. */
    ghost function Lines(): seq<Line>
      requires Observable()
      reads this
    {
      ClauseLines(clauses) + UnitLines(Units())
    }

    ghost function UnitLines(ps: seq<nat>): seq<Line> {
      seq(|ps|, i requires 0 <= i < |ps| => [Index(ps[i])])
    }

    /** DIMACSExporter::wffArraySize */
    method WffArraySize() returns (size: nat)
      requires Observable()
      ensures size == |Flat(Lines())|
    {
      ghost var lines := Lines();
      size := 0;
      for k := 0 to |clauses|
        invariant size + k == |Flat(lines[..k])|
      {
        NextLine(lines, k);
        size := size + clauses[k].Literals();
      }
      size := size + 1 * |clauses| + 2 * |initialModes| + 2 * |futureObservations|;
      UnitSizes(lines, |clauses|);
    }

    /** Append numbers to the part of the array that has been filled. */
    method Append(wff: array<int>, insert: nat, ps: seq<nat>, positive: bool) returns (end: nat)
      requires insert + |ps| <= wff.Length
      modifies wff
      ensures end == insert + |ps|
      ensures wff[..end] == old(wff[..insert]) + if positive then Numbers(ps) else Opposites(Numbers(ps))
    {
      ghost var line := if positive then Numbers(ps) else Opposites(Numbers(ps));
      ghost var before := wff[..insert];
      end := insert;
      assert |line| == |ps|;
      assert forall k :: 0 <= k < |ps| ==> line[k] == if positive then Index(ps[k]) else -Index(ps[k]);
      hide *;
      for k := 0 to |ps|
        invariant end == insert + k && wff[..end] == before + line[..k]
      {
        end := AppendOne(wff, end, ps[k], positive, before, line, k);
      }
      assert line[..|ps|] == line;
    }

    method AppendOne(wff: array<int>, insert: nat, p: nat, positive: bool, ghost before: seq<int>, ghost line: Line,
                     ghost k: nat)
      returns (end: nat)
      requires insert < wff.Length && k < |line| && wff[..insert] == before + line[..k]
      requires line[k] == if positive then Index(p) else -Index(p)
      modifies wff
      ensures end == insert + 1 && wff[..end] == before + line[..k+1]
    {
      hide *;
      var index := PropositionIndex(p);
      if !positive { index := -index; }
      Put(wff, insert, index);
      end := insert + 1;
      assert line[..k+1] == line[..k] + [line[k]];
    }

    method Put(wff: array<int>, insert: nat, x: int)
      requires insert < wff.Length
      modifies wff
      ensures wff[..insert + 1] == old(wff[..insert]) + [x]
    {
      wff[insert] := x;
    }

    /** The array holds the first k lines and nothing more. */
    ghost predicate Filled(wff: array<int>, insert: nat, lines: seq<Line>, k: nat)
      reads wff
    {
      && wff.Length == |Flat(lines)| && k <= |lines|
      && insert == |Flat(lines[..k])| <= wff.Length && wff[..insert] == Flat(lines[..k])
    }

    method WriteClause(wff: array<int>, insert: nat, c: Clause, ghost lines: seq<Line>, ghost k: nat) returns (end: nat)
      requires Filled(wff, insert, lines, k) && k < |lines| && lines[k] == LineOf(c)
      modifies wff
      ensures Filled(wff, end, lines, k + 1)
    {
      NextLine(lines, k);
      hide Flat, Numbers, Opposites;
      end := Append(wff, insert, c.positive, true);
      end := Append(wff, end, c.negative, false);
      Put(wff, end, 0);
      end := end + 1;
      assert wff[..end] == Flat(lines[..k]) + lines[k] + [0];
    }

    method WriteUnit(wff: array<int>, insert: nat, p: nat, ghost lines: seq<Line>, ghost k: nat) returns (end: nat)
      requires Filled(wff, insert, lines, k) && k < |lines| && lines[k] == [Index(p)]
      modifies wff
      ensures Filled(wff, end, lines, k + 1)
    {
      NextLine(lines, k);
      hide Flat, Numbers, Opposites;
      var index := PropositionIndex(p);
      Put(wff, insert, index);
      Put(wff, insert + 1, 0);
      end := insert + 2;
      assert wff[..end] == Flat(lines[..k]) + [index] + [0];
    }

    /** DIMACSExporter::getWff fills exactly the array that wffArraySize asks for. */
    method GetWff() returns (wff: array<int>)
      requires Observable()
      ensures fresh(wff) && wff[..] == Flat(Lines())
    {
      hide *;
      ghost var lines := Lines();
      LineShapes();
      var arraySize := WffArraySize();
      wff := new int[arraySize];
      FilledNone(wff, lines);
      var insert := WriteClauses(wff, 0, lines);
      insert := WriteModes(wff, insert, lines);
      insert := WriteObservations(wff, insert, lines);
      FilledUp(wff, insert, lines);
    }

    lemma FilledNone(wff: array<int>, lines: seq<Line>)
      requires wff.Length == |Flat(lines)|
      ensures Filled(wff, 0, lines, 0)
    {
    }

    method WriteClauses(wff: array<int>, start: nat, ghost lines: seq<Line>) returns (insert: nat)
      requires Observable() && Filled(wff, start, lines, 0) && Shaped(lines)
      modifies wff
      ensures Filled(wff, insert, lines, |clauses|)
    {
      insert := start;
      hide Filled, LineOf, Index, UnitAt;
      for k := 0 to |clauses|
        invariant Filled(wff, insert, lines, k)
      {
        insert := WriteClause(wff, insert, clauses[k], lines, k);
      }
    }

    method WriteModes(wff: array<int>, start: nat, ghost lines: seq<Line>) returns (insert: nat)
      requires Observable() && Filled(wff, start, lines, |clauses|) && Shaped(lines)
      modifies wff
      ensures Filled(wff, insert, lines, |clauses| + |initialModes|)
    {
      insert := start;
      hide Filled, Index;
      for k := 0 to |initialModes|
        invariant Filled(wff, insert, lines, |clauses| + k)
      {
        assert UnitAt(k) == initialModes[k].value.value;
        insert := WriteUnit(wff, insert, initialModes[k].value.value, lines, |clauses| + k);
      }
    }

    method WriteObservations(wff: array<int>, start: nat, ghost lines: seq<Line>) returns (insert: nat)
      requires Observable() && Filled(wff, start, lines, |clauses| + |initialModes|) && Shaped(lines)
      modifies wff
      ensures Filled(wff, insert, lines, |lines|)
    {
      insert := start;
      hide Filled, Index;
      for k := 0 to |futureObservations|
        invariant Filled(wff, insert, lines, |clauses| + |initialModes| + k)
      {
        assert UnitAt(|initialModes| + k) == Observed(futureObservations[k]);
        insert := WriteUnit(wff, insert, Observed(futureObservations[k]), lines, |clauses| + |initialModes| + k);
      }
    }

    /** The proposition asserted by the k-th unit clause */
    ghost function UnitAt(k: nat): nat
      requires Observable() && k < |initialModes| + |futureObservations|
      reads this
    {
      if k < |initialModes| then initialModes[k].value.value else Observed(futureObservations[k - |initialModes|])
    }

    /** First the lines of the clauses, then one for each mode and observation. */
    ghost predicate Shaped(lines: seq<Line>)
      requires Observable()
      reads this
    {
      && |lines| == |clauses| + |initialModes| + |futureObservations|
      && (forall k :: 0 <= k < |clauses| ==> lines[k] == LineOf(clauses[k]))
      && (forall k :: 0 <= k < |initialModes| + |futureObservations| ==> lines[|clauses| + k] == [Index(UnitAt(k))])
    }

    lemma LineShapes()
      requires Observable()
      ensures Shaped(Lines())
    {
    }

    lemma FilledUp(wff: array<int>, insert: nat, lines: seq<Line>)
      requires Filled(wff, insert, lines, |lines|)
      ensures insert == wff.Length && wff[..] == Flat(lines)
    {
      assert lines[..|lines|] == lines;
    }

    /** The nested printing loops; None stands for a read beyond the array. */
    method PrintTheory(wff: array<int>, clauseCount: nat) returns (printed: Option<seq<Line>>)
      ensures printed == Print(wff[..], 0, clauseCount)
    {
      var lines, i := [], 0;
      ghost var all := Print(wff[..], 0, clauseCount);
      NothingBefore(all);
      for c := 0 to clauseCount
        invariant all == Behind(lines, Print(wff[..], i, clauseCount - c))
      {
        OneLineMore(lines, wff[..], i, clauseCount - c);
        hide *;
        var line := PrintOne(wff, i);
        if line.None? {
          return None;
        }
        lines := lines + [line.value.0];
        i := line.value.1;
      }
      OneLineMore(lines, wff[..], i, 0);
      printed := Some(lines);
    }

    /** The inner loop */
    method PrintOne(wff: array<int>, start: nat) returns (line: Option<(Line, nat)>)
      ensures line == PrintLine(wff[..], start)
    {
      var i, numbers := start, [];
      ghost var all := PrintLine(wff[..], start);
      NoNumberBefore(all);
      while i + 1 < wff.Length && wff[i + 1] != 0
        invariant all == Continued(numbers, PrintLine(wff[..], i))
        decreases wff.Length - i
      {
        OneNumberMore(numbers, wff[..], i);
        hide *;
        numbers := numbers + [wff[i]];
        i := i + 1;
      }
      if i + 1 < wff.Length {
        line := Some((numbers + [wff[i]], i + 2));
      } else {
        line := None;
      }
    }

    /** DIMACSExporter::exportTheory, when all propositions are listed: the lines are printed exactly if no clause of
        the theory is empty. */
    method ExportTheory() returns (variableCount: nat, clauseCount: nat, printed: Option<seq<Line>>)
      requires clauses == [] && initialModes == [] && futureObservations == []
      requires Closed()
      modifies this
      ensures Built() && Observable() && clauseCount == GetClauseCount() == |Lines()| && variableCount == |propositions|
      ensures printed == Some(Lines()) <==> forall c :: c in theory ==> c.Literals() > 0
      ensures forall k, i :: 0 <= k < |Lines()| && 0 <= i < |Lines()[k]| ==> 1 <= Abs(Lines()[k][i]) <= variableCount
      ensures Preserved()
    {
      BuildTheory();
      FromTheory(|theory|);
      FromVariables(|variables|);
      var wff := GetWff();
      variableCount := |propositions|;
      clauseCount := GetClauseCount();
      InRange();
      RoundTrip(Lines());
      AllModels();
      hide *;
      printed := PrintTheory(wff, clauseCount);
    }

    lemma {:induction false} FromTheory(k: nat)
      requires k <= |theory|
      ensures forall c :: c in NonSingletons(theory[..k]) <==> c in theory[..k] && !Singleton(c)
      ensures theory[..|theory|] == theory
    {
      if k > 0 {
        FromTheory(k - 1);
        assert theory[..k][..k-1] == theory[..k-1] && theory[..k] == theory[..k-1] + [theory[k-1]];
      }
    }

    lemma {:induction false} FromVariables(k: nat)
      requires k <= |variables|
      ensures forall v, modes :: v in Collected(variables[..k], modes) <==>
        v in variables[..k] && v.value.Some? && InitialMode(v) == modes && (modes || (v.observable && v.now))
      ensures variables[..|variables|] == variables
    {
      if k > 0 {
        FromVariables(k - 1);
        assert variables[..k][..k-1] == variables[..k-1] && variables[..k] == variables[..k-1] + [variables[k-1]];
      }
    }

    /** Every number is that of a listed proposition, or its opposite; a line is empty only for an empty clause. */
    lemma InRange()
      requires Built() && Closed()
      ensures Observable() && Encodable(Lines())
      ensures (NoneEmpty(Lines()) <==> forall c :: c in theory ==> c.Literals() > 0)
      ensures forall k, i :: 0 <= k < |Lines()| && 0 <= i < |Lines()[k]| ==> 1 <= Abs(Lines()[k][i]) <= |propositions|
    {
      BuiltObservable();
      hide *;
      LineShapes();
      PlacesListed();
      LinesInRange(Lines());
    }

    lemma BuiltObservable()
      requires Built() && Closed()
      ensures Observable()
      ensures (forall k :: 0 <= k < |clauses| ==> clauses[k].Literals() > 0) <==>
        forall c :: c in theory ==> c.Literals() > 0
    {
      FromVariables(|variables|);
      FromTheory(|theory|);
      assert forall k :: 0 <= k < |clauses| ==> clauses[k] in clauses;
      assert forall c :: c in theory && c.Literals() == 0 ==> c in clauses;
      hide NonSingletons, Collected, Singleton, InitialMode;
    }

    lemma LinesInRange(lines: seq<Line>)
      requires Observable() && Shaped(lines) && Listed()
      ensures NoneEmpty(lines) <==> forall k :: 0 <= k < |clauses| ==> clauses[k].Literals() > 0
      ensures Encodable(lines)
      ensures forall k, i :: 0 <= k < |lines| && 0 <= i < |lines[k]| ==> 1 <= Abs(lines[k][i]) <= |propositions|
    {
      hide LineOf, UnitAt, Observable;
      var n := |clauses|;
      forall k | 0 <= k < |lines|
        ensures InRangeLine(lines[k]) && (lines[k] == [] <==> k < n && clauses[k].Literals() == 0)
      {
        if k < n {
          ClauseInRange(clauses[k]);
        } else {
          assert lines[n + (k - n)] == [Index(UnitAt(k - n))];
        }
      }
      assert forall k :: 0 <= k < n ==> (lines[k] == [] <==> clauses[k].Literals() == 0);
    }

    ghost predicate InRangeLine(line: Line) {
      forall i :: 0 <= i < |line| ==> 1 <= Abs(line[i]) <= |propositions|
    }

    lemma ClauseInRange(c: Clause)
      requires forall p :: p in c.positive || p in c.negative ==> p in propositions
      ensures InRangeLine(LineOf(c)) && |LineOf(c)| == c.Literals()
    {
      assert |LineOf(c)| == c.Literals();
      forall i | 0 <= i < |LineOf(c)| ensures 1 <= Abs(LineOf(c)[i]) <= |propositions| {
        if i < |c.positive| {
          assert c.positive[i] in c.positive;
        } else {
          assert c.negative[i - |c.positive|] in c.negative;
        }
      }
    }

    // ---------- the models ----------

    /** The same propositions are true, under their identities and under their numbers. */
    ghost predicate Agree(m: iset<nat>, numbers: iset<int>) {
      forall p :: p in propositions ==> (p in m <==> Index(p) in numbers)
    }

    /**
     * What the export is to preserve: the clauses of the theory with more or fewer literals than one; for every
     * variable of the first time step that turns into a mode, its value; and for every other variable that is
     * observed now, its current assignment, or its value if there is none.
     */
    ghost predicate SourceHolds(m: iset<nat>)
      requires Closed()
    {
      && (forall c :: c in theory && |c.positive| + |c.negative| != 1 ==> ClauseHolds(c, m))
      && (forall v :: v in variables && v.value.Some? && v.timeStep == 1 && v.dependent && true in v.transitioned ==>
            v.value.value in m)
      && (forall v :: v in variables && v.value.Some? && !(v.timeStep == 1 && v.dependent && true in v.transitioned)
                      && v.observable && v.now ==>
            if v.current.Some? then v.props[v.current.value] in m else v.value.value in m)
    }

    /** The exported problem has the models of its source. */
    lemma SameModels(m: iset<nat>, numbers: iset<int>)
      requires Built() && Closed() && Observable() && Agree(m, numbers)
      ensures SourceHolds(m) <==> forall k :: 0 <= k < |Lines()| ==> LineHolds(Lines()[k], numbers)
    {
      hide *;
      LineShapes();
      PlacesListed();
      LineByLine(Lines(), m, numbers);
      ByPlace(m);
      ByCollection(m);
    }

    /** Under every interpretation of the propositions and their numbers, the lines say what the source does. */
    ghost predicate Preserved()
      requires Closed() && Observable()
      reads this
    {
      forall m, numbers :: Agree(m, numbers) ==>
        (SourceHolds(m) <==> forall k :: 0 <= k < |Lines()| ==> LineHolds(Lines()[k], numbers))
    }

    lemma AllModels()
      requires Built() && Closed() && Observable()
      ensures Preserved()
    {
      hide Agree, SourceHolds, LineHolds, Lines, Built, Closed, Observable;
      forall m, numbers | Agree(m, numbers)
        ensures SourceHolds(m) <==> forall k :: 0 <= k < |Lines()| ==> LineHolds(Lines()[k], numbers)
      {
        SameModels(m, numbers);
      }
    }

    /** The same in terms of what has been collected */
    ghost predicate CollectedHold(m: iset<nat>)
      requires Observable()
      reads this
    {
      && (forall c :: c in clauses ==> ClauseHolds(c, m))
      && (forall v :: v in initialModes ==> v.value.value in m)
      && (forall v :: v in futureObservations ==> Observed(v) in m)
    }

    lemma ByCollection(m: iset<nat>)
      requires Built() && Closed() && Observable()
      ensures CollectedHold(m) <==> SourceHolds(m)
    {
      FromTheory(|theory|);
      FromVariables(|variables|);
      hide ClauseHolds, NonSingletons, Collected;
    }

    /** The same, place by place in the arrays */
    ghost predicate PlacesHold(m: iset<nat>)
      requires Observable()
      reads this
    {
      && (forall k :: 0 <= k < |clauses| ==> ClauseHolds(clauses[k], m))
      && (forall k :: 0 <= k < |initialModes| + |futureObservations| ==> UnitAt(k) in m)
    }

    lemma ByPlace(m: iset<nat>)
      requires Observable()
      ensures PlacesHold(m) <==> CollectedHold(m)
    {
      hide ClauseHolds, Observed;
      if CollectedHold(m) {
        assert forall k :: 0 <= k < |clauses| ==> clauses[k] in clauses;
        assert forall k :: 0 <= k < |initialModes| ==> initialModes[k] in initialModes;
        assert forall k :: 0 <= k < |futureObservations| ==> futureObservations[k] in futureObservations;
      }
      if PlacesHold(m) {
        forall k | 0 <= k < |initialModes| ensures initialModes[k].value.value in m {
          assert UnitAt(k) in m;
        }
        forall k | 0 <= k < |futureObservations| ensures Observed(futureObservations[k]) in m {
          assert UnitAt(|initialModes| + k) in m;
        }
      }
    }

    /** What stands at any place of the arrays speaks of listed propositions only. */
    ghost predicate Listed()
      requires Observable()
      reads this
    {
      && (forall k, p ::
            0 <= k < |clauses| && (p in clauses[k].positive || p in clauses[k].negative) ==> p in propositions)
      && (forall k :: 0 <= k < |initialModes| + |futureObservations| ==> UnitAt(k) in propositions)
    }

    lemma PlacesListed()
      requires Built() && Closed() && Observable()
      ensures Listed()
    {
      Members();
      hide NonSingletons, Collected, Observed, Singleton, Closed;
      assert forall k :: 0 <= k < |clauses| ==> clauses[k] in clauses;
      assert forall k :: 0 <= k < |initialModes| ==> initialModes[k] in initialModes;
      assert forall k :: 0 <= k < |futureObservations| ==> futureObservations[k] in futureObservations;
    }

    lemma LineByLine(lines: seq<Line>, m: iset<nat>, numbers: iset<int>)
      requires Observable() && Shaped(lines) && Listed() && Agree(m, numbers)
      ensures (forall k :: 0 <= k < |lines| ==> LineHolds(lines[k], numbers)) <==> PlacesHold(m)
    {
      var n := |clauses|;
      hide Agree, LineHolds, ClauseHolds, Observed, LineOf, Index, UnitAt, Observable;
      forall k | 0 <= k < n ensures LineHolds(lines[k], numbers) <==> ClauseHolds(clauses[k], m) {
        SameClause(clauses[k], m, numbers);
      }
      forall k | 0 <= k < |lines| - n ensures LineHolds(lines[n + k], numbers) <==> UnitAt(k) in m {
        SameUnit(UnitAt(k), m, numbers);
      }
      if PlacesHold(m) {
        forall k | n <= k < |lines| ensures LineHolds(lines[k], numbers) {
          var j := k - n;
          assert UnitAt(j) in m && lines[n + j] == lines[k];
        }
      }
    }

    /** Which clauses and variables were collected, and that their propositions are listed. */
    lemma Members()
      requires Built() && Closed() && Observable()
      ensures forall c :: c in clauses <==> c in theory && !Singleton(c)
      ensures forall c, p :: c in clauses && (p in c.positive || p in c.negative) ==> p in propositions
      ensures forall v :: v in initialModes ==> v.value.value in propositions
      ensures forall v :: v in futureObservations ==> Observed(v) in propositions
    {
      FromTheory(|theory|);
      FromVariables(|variables|);
    }

    lemma SameUnit(p: nat, m: iset<nat>, numbers: iset<int>)
      requires p in propositions && Agree(m, numbers)
      ensures LineHolds([Index(p)], numbers) <==> p in m
    {
      assert [Index(p)][0] > 0;
    }

    lemma Entry(c: Clause, i: nat)
      requires i < c.Literals()
      ensures |LineOf(c)| == c.Literals()
      ensures LineOf(c)[i] == if i < |c.positive| then Index(c.positive[i]) else -Index(c.negative[i - |c.positive|])
    {
    }

    lemma SameClause(c: Clause, m: iset<nat>, numbers: iset<int>)
      requires Agree(m, numbers) && forall p :: p in c.positive || p in c.negative ==> p in propositions
      ensures LineHolds(LineOf(c), numbers) <==> ClauseHolds(c, m)
    {
      if LineHolds(LineOf(c), numbers) {
        LineToClause(c, m, numbers);
      }
      if ClauseHolds(c, m) {
        ClauseToLine(c, m, numbers);
      }
    }

    lemma LineToClause(c: Clause, m: iset<nat>, numbers: iset<int>)
      requires Agree(m, numbers) && forall p :: p in c.positive || p in c.negative ==> p in propositions
      requires LineHolds(LineOf(c), numbers)
      ensures ClauseHolds(c, m)
    {
      var line, n := LineOf(c), |c.positive|;
      var k :| 0 <= k < |line| && if line[k] > 0 then line[k] in numbers else -line[k] !in numbers;
      assert |line| == c.Literals();
      Entry(c, k);
      hide LineOf, LineHolds;
      if k < n {
        assert c.positive[k] in c.positive;
      } else {
        assert c.negative[k - n] in c.negative;
      }
    }

    lemma ClauseToLine(c: Clause, m: iset<nat>, numbers: iset<int>)
      requires Agree(m, numbers) && forall p :: p in c.positive || p in c.negative ==> p in propositions
      requires ClauseHolds(c, m)
      ensures LineHolds(LineOf(c), numbers)
    {
      var line, n := LineOf(c), |c.positive|;
      hide LineOf;
      if p :| p in c.positive && p in m {
        var i :| 0 <= i < n && c.positive[i] == p;
        Entry(c, i);
        assert line[i] in numbers;
      } else {
        var p :| p in c.negative && p !in m;
        var i :| 0 <= i < |c.negative| && c.negative[i] == p;
        Entry(c, n + i);
        assert -line[n + i] !in numbers;
      }
    }

    /** Every model of the problem is one of the source: each set of numbers stands for a set of propositions. */
    lemma EveryNumbering(numbers: iset<int>) returns (m: iset<nat>)
      ensures Agree(m, numbers)
    {
      m := iset p: nat | p in propositions && Index(p) in numbers;
    }

    /** And each set of propositions has a set of numbers. */
    lemma EveryModel(m: iset<nat>) returns (numbers: iset<int>)
      requires NoDuplicates(propositions)
      ensures Agree(m, numbers)
    {
      numbers := iset p: nat | p in propositions && p in m :: Index(p);
    }
  }

  function Abs(x: int): nat {
    if x < 0 then -x else x
  }

  lemma NextLine(lines: seq<Line>, k: nat)
    requires k < |lines|
    ensures Flat(lines[..k+1]) == Flat(lines[..k]) + lines[k] + [0]
    ensures |Flat(lines[..k+1])| <= |Flat(lines)|
  {
    assert lines[..k+1][..k] == lines[..k];
    FlatSplit(lines, k + 1);
  }

  lemma {:induction false} UnitSizes(lines: seq<Line>, k: nat)
    requires k <= |lines| && forall i :: k <= i < |lines| ==> |lines[i]| == 1
    ensures |Flat(lines)| == |Flat(lines[..k])| + 2 * (|lines| - k)
    decreases |lines| - k
  {
    if k == |lines| {
      assert lines[..k] == lines;
    } else {
      NextLine(lines, k);
      UnitSizes(lines, k + 1);
    }
  }

  ghost function First(s: seq<nat>, x: nat): (i: nat)
    requires x in s
    ensures i < |s| && s[i] == x && x !in s[..i]
  {
    if s[0] == x then 0 else
      var i := First(s[1..], x) + 1;
      assert s[..i] == [s[0]] + s[1..][..i-1];
      i
  }
}
