/** The history of a candidate as the engine groups it: one row for each time step. */
module Diagnosis {
  import opened Options
  import opened Sequences

  datatype AttributeAssignment = AttributeAssignment(name: string, value: string, time: int)

  /** What was reported for a time, in order; a report may be empty. */
  ghost function At(reported: seq<Option<AttributeAssignment>>, time: int): seq<AttributeAssignment> {
    if reported == [] then []
    else
      var r := reported[|reported|-1];
      At(reported[..|reported|-1], time) + if r.Some? && r.value.time == time then [r.value] else []
  }

  ghost function Window(reported: seq<Option<AttributeAssignment>>, start: int, stop: int): seq<AttributeAssignment> {
    if reported == [] then []
    else
      var r := reported[|reported|-1];
      Window(reported[..|reported|-1], start, stop) + if r.Some? && start <= r.value.time <= stop then [r.value] else []
  }

  function Get(history: map<int, seq<AttributeAssignment>>, time: int): seq<AttributeAssignment> {
    if time in history then history[time] else []
  }

  /** What a search for a place in a list answers: a place of an element, or -1 - p for the place p to insert at. */
  ghost predicate Answers(search: (seq<AttributeAssignment>, string) -> int) {
    forall s, name :: -1 - |s| <= search(s, name) < |s|
  }

  /** The list kept for a time holds what was reported for it. */
  ghost predicate Holds(row: seq<AttributeAssignment>, reported: seq<Option<AttributeAssignment>>, time: int) {
    multiset(row) == multiset(At(reported, time))
  }

  ghost predicate Grouped(history: map<int, seq<AttributeAssignment>>, reported: seq<Option<AttributeAssignment>>) {
    forall time :: Holds(Get(history, time), reported, time)
  }

  /** One more report, and the list of its time with the new assignment at any place */
  lemma Placed(state: seq<AttributeAssignment>, index: nat, reported: seq<Option<AttributeAssignment>>,
               aa: AttributeAssignment)
    requires index <= |state| && Holds(state, reported, aa.time)
    ensures Holds(state[..index] + [aa] + state[index..], reported + [Some(aa)], aa.time)
  {
    var t := state[..index] + [aa] + state[index..];
    assert (reported + [Some(aa)])[..|reported|] == reported;
    WithoutElements(t, index);
    assert Without(t, index) == state;
  }

  lemma Elsewhere(row: seq<AttributeAssignment>, reported: seq<Option<AttributeAssignment>>,
                  r: Option<AttributeAssignment>, time: int)
    requires Holds(row, reported, time) && (r.Some? ==> r.value.time != time)
    ensures Holds(row, reported + [r], time)
  {
    assert (reported + [r])[..|reported|] == reported;
  }

  lemma NothingReported(history: map<int, seq<AttributeAssignment>>, reported: seq<Option<AttributeAssignment>>, k: nat)
    requires k < |reported| && reported[k].None? && Grouped(history, reported[..k])
    ensures Grouped(history, reported[..k+1])
  {
    OneReportMore(reported, k);
    hide Holds;
    forall time ensures Holds(Get(history, time), reported[..k+1], time) {
      Elsewhere(Get(history, time), reported[..k], reported[k], time);
    }
  }

  lemma OneReported(history: map<int, seq<AttributeAssignment>>, reported: seq<Option<AttributeAssignment>>, k: nat,
                    index: nat, row: seq<AttributeAssignment>)
    requires k < |reported| && reported[k].Some? && Grouped(history, reported[..k])
    requires var aa := reported[k].value;
             var state := Get(history, aa.time);
             index <= |state| && row == state[..index] + [aa] + state[index..]
    ensures Grouped(history[reported[k].value.time := row], reported[..k+1])
  {
    var aa := reported[k].value;
    OneReportMore(reported, k);
    hide Holds;
    var after := history[aa.time := row];
    forall time ensures Holds(Get(after, time), reported[..k+1], time) {
      if time == aa.time {
        Placed(Get(history, time), index, reported[..k], aa);
      } else {
        Elsewhere(Get(history, time), reported[..k], reported[k], time);
      }
    }
  }

  lemma OneReportMore(reported: seq<Option<AttributeAssignment>>, k: nat)
    requires k < |reported|
    ensures reported[..k+1] == reported[..k] + [reported[k]]
  {
  }

  /** The observer that puts every reported assignment into the list of its time, wherever the search says. */
  method Group(reported: seq<Option<AttributeAssignment>>, search: (seq<AttributeAssignment>, string) -> int)
    returns (history: map<int, seq<AttributeAssignment>>)
    requires Answers(search)
    ensures Grouped(history, reported)
  {
    history := map[];
    assert Grouped(history, reported[..0]);
    hide Grouped, Get;
    for k := 0 to |reported|
      invariant Grouped(history, reported[..k])
    {
      if reported[k].Some? {
        var aa := reported[k].value;
        var state := Get(history, aa.time);
        var index := search(state, aa.name);
        if index < 0 { index := -1 - index; }
        var row := state[..index] + [aa] + state[index..];
        OneReported(history, reported, k, index, row);
        history := history[aa.time := row];
      } else {
        NothingReported(history, reported, k);
      }
    }
    assert reported[..|reported|] == reported;
  }

  /** The rows from start to stop, or None for the exception that an array of negative size raises. */
  method Rows(history: map<int, seq<AttributeAssignment>>, start: int, stop: int)
    returns (rows: Option<seq<seq<AttributeAssignment>>>)
    ensures rows.None? <==> stop - start + 1 < 0
    ensures rows.Some? ==> |rows.value| == stop - start + 1
    ensures rows.Some? ==> forall k :: 0 <= k < |rows.value| ==> rows.value[k] == Get(history, start + k)
  {
    if stop - start + 1 < 0 {
      return None;
    }
    var ret := [];
    for time := start to stop + 1
      invariant |ret| == time - start && forall k :: 0 <= k < |ret| ==> ret[k] == Get(history, start + k)
    {
      ret := ret + [Get(history, time)];
    }
    rows := Some(ret);
  }

  /** The history part of LivingstoneEngine.getDiagnosis */
  method GetHistory(reported: seq<Option<AttributeAssignment>>, search: (seq<AttributeAssignment>, string) -> int,
                    start: int, stop: int)
    returns (rows: Option<seq<seq<AttributeAssignment>>>)
    requires Answers(search)
    ensures rows.None? <==> stop - start + 1 < 0
    ensures rows.Some? ==> |rows.value| == stop - start + 1
    ensures rows.Some? ==> forall k :: 0 <= k < |rows.value| ==> Holds(rows.value[k], reported, start + k)
    ensures rows.Some? ==> SameElements(Flatten(rows.value), Window(reported, start, stop))
  {
    hide Holds, Get, SameElements, At, Window, Answers;
    var history := Group(reported, search);
    rows := Rows(history, start, stop);
    if rows.Some? {
      Partition(reported, start, rows.value);
    }
  }

  /** Rows with the assignments of consecutive times hold those of the whole window, each of them once. */
  lemma {:induction false} Partition(reported: seq<Option<AttributeAssignment>>, start: int,
                                     rows: seq<seq<AttributeAssignment>>)
    requires forall k :: 0 <= k < |rows| ==> Holds(rows[k], reported, start + k)
    ensures SameElements(Flatten(rows), Window(reported, start, start + |rows| - 1))
  {
    hide SameElements, At, Window, Holds, Flatten;
    if rows == [] {
      NoTimes(reported, start);
    } else {
      var n := |rows| - 1;
      Partition(reported, start, rows[..n]);
      LastRow(reported, start, start + n, rows);
    }
  }

  ghost predicate SameElements(s: seq<AttributeAssignment>, t: seq<AttributeAssignment>) {
    multiset(s) == multiset(t)
  }

  lemma LastRow(reported: seq<Option<AttributeAssignment>>, start: int, stop: int, rows: seq<seq<AttributeAssignment>>)
    requires rows != [] && start <= stop && Holds(rows[|rows|-1], reported, stop)
    requires SameElements(Flatten(rows[..|rows|-1]), Window(reported, start, stop - 1))
    ensures SameElements(Flatten(rows), Window(reported, start, stop))
  {
    var before, last := Flatten(rows[..|rows|-1]), rows[|rows|-1];
    assert Flatten(rows) == before + last;
    hide At, Window, Flatten;
    OneTimeMore(reported, start, stop);
    assert multiset(before + last) == multiset(before) + multiset(last);
  }

  lemma {:induction false} NoTimes(reported: seq<Option<AttributeAssignment>>, start: int)
    ensures SameElements(Flatten<AttributeAssignment>([]), Window(reported, start, start - 1))
    ensures Window(reported, start, start - 1) == []
  {
    if reported != [] { NoTimes(reported[..|reported|-1], start); }
  }

  lemma {:induction false} OneTimeMore(reported: seq<Option<AttributeAssignment>>, start: int, stop: int)
    requires start <= stop
    ensures multiset(Window(reported, start, stop)) ==
      multiset(Window(reported, start, stop - 1)) + multiset(At(reported, stop))
  {
    if reported != [] { OneTimeMore(reported[..|reported|-1], start, stop); }
  }
}
