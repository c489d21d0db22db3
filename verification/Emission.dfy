/** What a ReadRows scan emits for the rows it visits (pkg/bigtable/readrows.go, filter.go). */
module Emission {
  import opened Bytes
  import opened Encoding
  import opened Pebble
  import opened Filter
  import opened FilterMeaning
  import opened Chunks
  import opened Scan

  /* ---- The meaning of the filter on a row ---- */

  function HasStripValue(e: Evaluator): bool
    decreases e, 1
  {
    match e
    case Stage(f) => f.StripValue?
    case ChainStage(es) => AnyStripValue(es)
    case InterleaveStage(es, _) => AnyStripValue(es)
    case ConditionStage(test, t, f) =>
      HasStripValue(test) || (t.Some? && HasStripValue(t.value)) || (f.Some? && HasStripValue(f.value))
    case _ => false
  }

  function AnyStripValue(es: seq<Evaluator>): bool
    decreases es, 0
  {
    es != [] && (HasStripValue(es[0]) || AnyStripValue(es[1..]))
  }

  function Strip(cells: Row): (r: Row)
    ensures |r| == |cells|
  {
    seq(|cells|, i requires 0 <= i < |cells| => cells[i].(value := []))
  }

  /** The request's filter, if any, compiles. */
  predicate Usable(filter: Option<Filter>) { filter.Some? ==> Build(filter.value).Some? }

  /** The filter's meaning on one row alone; a strip-value anywhere in the tree empties values. */
  function Emitted(filter: Option<Filter>, row: Row): Row
    requires Usable(filter)
  {
    if filter.None? then row
    else if HasStripValue(Build(filter.value).value) then Strip(Kept(filter.value, row))
    else Kept(filter.value, row)
  }

  function EmittedAll(filter: Option<Filter>, rows: seq<Row>): (r: seq<Row>)
    requires Usable(filter)
    ensures |r| == |rows| && forall i :: 0 <= i < |rows| ==> r[i] == Emitted(filter, rows[i])
  {
    seq(|rows|, i requires 0 <= i < |rows| => Emitted(filter, rows[i]))
  }

  lemma {:induction false} SelectSnoc(row: Row, m: seq<bool>, c: CellInfo, b: bool)
    requires |m| == |row|
    ensures Select(row + [c], m + [b], true) == Select(row, m, true) + if b then [c] else []
    decreases |row|
  {
    if row == [] {
      assert row + [c] == [c] && m + [b] == [b];
    } else {
      SelectSnoc(row[1..], m[1..], c, b);
      assert (row + [c])[1..] == row[1..] + [c] && (m + [b])[1..] == m[1..] + [b];
    }
  }

  /** One more cell of the row: the evaluator's verdict decides whether it is emitted. */
  lemma EmittedSnoc(f: Filter, row: Row, c: CellInfo)
    requires Build(f).Some?
    ensures var e := Build(f).value;
      Kept(f, row + [c]) == Kept(f, row) + if Step(After(e, row), c).1 then [c] else []
  {
    var e := Build(f).value;
    EvaluatorMeansFilter(f, row);
    EvaluatorMeansFilter(f, row + [c]);
    VerdictsSnoc(e, row, c);
    SelectSnoc(row, Verdicts(e, row), c, Step(After(e, row), c).1);
  }

  lemma StripSnoc(cells: Row, c: CellInfo)
    ensures Strip(cells + [c]) == Strip(cells) + [c.(value := [])]
  {
  }

  /** The cached strip flag could as well be recomputed at any time. */
  lemma {:induction false} StripIsStable(e: Evaluator, row: Row)
    ensures HasStripValue(After(e, row)) == HasStripValue(e)
    decreases |row|
  {
    if row != [] {
      StripIsStable(Step(e, row[0]).0, row[1..]);
      StripStep(e, row[0]);
    }
  }

  lemma {:induction false} StripStep(e: Evaluator, c: CellInfo)
    ensures HasStripValue(Step(e, c).0) == HasStripValue(e)
    decreases e, 1
  {
    match e
    case ChainStage(es) => StripSteps(es, c);
    case InterleaveStage(es, _) => StripSteps(es, c);
    case ConditionStage(test, t, f) =>
      StripStep(test, c);
      if t.Some? { StripStep(t.value, c); }
      if f.Some? { StripStep(f.value, c); }
    case _ =>
  }

  lemma {:induction false} StripSteps(es: seq<Evaluator>, c: CellInfo)
    ensures AnyStripValue(StepChain(es, c).0) == AnyStripValue(es) == AnyStripValue(StepCascade(es, c).0)
    decreases es, 0
  {
    if es != [] {
      StripStep(es[0], c);
      StripSteps(es[1..], c);
      assert StepChain(es, c).0[1..] == if Step(es[0], c).1 then StepChain(es[1..], c).0 else es[1..];
      assert StepCascade(es, c).0[1..] == if Step(es[0], c).1 then es[1..] else StepCascade(es[1..], c).0;
    }
  }

  /* ---- Visits ---- */

  /** The cells of one row in one range.  A row that starts the range under the empty key is not
      recognised as a new row: it is not started. */
  datatype Visit = Visit(cells: Row, started: bool)

  function RangeVisits(rows: seq<Row>): (vs: seq<Visit>)
    requires NonEmpty(rows)
    ensures |vs| == |rows|
  {
    seq(|rows|, i requires 0 <= i < |rows| => Visit(rows[i], i > 0 || rows[i][0].cell.row != []))
  }

  ghost function VisitsIn(db: DB, r: KeyRange, reversed: bool): seq<Visit> { RangeVisits(Group(Cells(db, ScanKeys(db, r, reversed)))) }

  ghost function Visits(db: DB, ranges: seq<KeyRange>, reversed: bool): seq<Visit>
    decreases |ranges|
  {
    if ranges == [] then []
    else Visits(db, ranges[..|ranges| - 1], reversed) + VisitsIn(db, ranges[|ranges| - 1], reversed)
  }

  function StartedRows(vs: seq<Visit>): nat
    decreases |vs|
  {
    if vs == [] then 0 else StartedRows(vs[..|vs| - 1]) + if vs[|vs| - 1].started then 1 else 0
  }

  /** The visits up to the limit-th started row; all of them for a limit of 0. */
  function Limited(vs: seq<Visit>, limit: int): seq<Visit>
    decreases |vs|
  {
    if limit <= 0 || vs == [] || StartedRows(vs[..|vs| - 1]) < limit then vs else Limited(vs[..|vs| - 1], limit)
  }

  lemma {:induction false} LimitedIs(vs: seq<Visit>, n: nat, limit: int)
    requires n <= |vs| && limit > 0 && StartedRows(vs[..n]) >= limit && (n > 0 ==> StartedRows(vs[..n - 1]) < limit)
    ensures Limited(vs, limit) == vs[..n]
    decreases |vs|
  {
    assert vs[..|vs|] == vs;
    if n < |vs| {
      var k := |vs| - 1;
      StartedGrows(vs[..k], n);
      assert vs[..k][..n] == vs[..n] && (n > 0 ==> vs[..k][..n - 1] == vs[..n - 1]);
      LimitedIs(vs[..k], n, limit);
    }
  }

  lemma {:induction false} StartedGrows(vs: seq<Visit>, n: nat)
    requires n <= |vs|
    ensures StartedRows(vs[..n]) <= StartedRows(vs)
    decreases |vs|
  {
    if n < |vs| {
      assert vs[..|vs| - 1][..n] == vs[..n];
      StartedGrows(vs[..|vs| - 1], n);
    } else {
      assert vs[..n] == vs;
    }
  }

  /** A visit that begins before the limit is reached is among the limited ones. */
  lemma {:induction false} WithinLimit(vs: seq<Visit>, n: nat, limit: int)
    requires n < |vs| && (limit > 0 ==> StartedRows(vs[..n]) < limit)
    ensures n < |Limited(vs, limit)| <= |vs| && Limited(vs, limit) == vs[..|Limited(vs, limit)|]
    decreases |vs|
  {
    assert vs[..|vs|] == vs;
    var k := |vs| - 1;
    if limit > 0 && StartedRows(vs[..k]) >= limit {
      if n == k { assert false; }
      assert vs[..k][..n] == vs[..n];
      WithinLimit(vs[..k], n, limit);
      assert vs[..k][..|Limited(vs, limit)|] == vs[..|Limited(vs, limit)|];
    }
  }

  /* ---- What a visit emits ---- */

  /** The evaluator after some visits: a started row is judged from reset state, another one goes on
      from the row before. */
  function EvalAfter(f: Filter, vs: seq<Visit>): Evaluator
    requires Build(f).Some?
    decreases |vs|
  {
    if vs == [] then Build(f).value
    else
      var v := vs[|vs| - 1];
      After(if v.started then Build(f).value else EvalAfter(f, vs[..|vs| - 1]), v.cells)
  }

  lemma {:induction false} EvalResets(f: Filter, vs: seq<Visit>)
    requires Build(f).Some?
    ensures Reset(EvalAfter(f, vs)) == Build(f).value
    decreases |vs|
  {
    hide Reset, After, Build;
    BuiltIsReset(f);
    if vs != [] {
      var v := vs[|vs| - 1];
      EvalResets(f, vs[..|vs| - 1]);
      ResetForgets(if v.started then Build(f).value else EvalAfter(f, vs[..|vs| - 1]), v.cells);
    }
  }

  /** The cells that pass from this state on; a strip-value anywhere in the tree empties values. */
  function EmitFrom(e: Evaluator, cells: Row): Row {
    var kept := Select(cells, Verdicts(e, cells), true);
    if HasStripValue(e) then Strip(kept) else kept
  }

  lemma EmitNothing(e: Evaluator)
    ensures EmitFrom(e, []) == []
  {
  }

  /** One more cell. */
  lemma EmitSnoc(e: Evaluator, cells: Row, c: CellInfo)
    ensures var now := After(e, cells);
      EmitFrom(e, cells + [c]) == EmitFrom(e, cells)
        + if Step(now, c).1 then [if HasStripValue(now) then c.(value := []) else c] else []
  {
    hide Step, HasStripValue;
    VerdictsSnoc(e, cells, c);
    SelectSnoc(cells, Verdicts(e, cells), c, Step(After(e, cells), c).1);
    StripSnoc(Select(cells, Verdicts(e, cells), true), c);
    StripIsStable(e, cells);
    assert forall r: Row :: r + [] == r;
  }

  lemma {:induction false} EmitGrows(e: Evaluator, cells: Row, n: nat)
    requires n <= |cells|
    ensures EmitFrom(e, cells[..n]) <= EmitFrom(e, cells)
    decreases |cells|
  {
    hide EmitFrom, Step, After, HasStripValue;
    if n < |cells| {
      var k := |cells| - 1;
      assert cells[..k][..n] == cells[..n] && cells == cells[..k] + [cells[k]];
      EmitGrows(e, cells[..k], n);
      EmitSnoc(e, cells[..k], cells[k]);
    } else {
      assert cells[..n] == cells;
    }
  }

  /** From reset state that is the filter's meaning on the row. */
  lemma EmitIsMeaning(f: Filter, cells: Row)
    requires Build(f).Some?
    ensures EmitFrom(Build(f).value, cells) == Emitted(Some(f), cells)
  {
    EvaluatorMeansFilter(f, cells);
  }

  /** The evaluator that judges a visit after these. */
  function JudgedFrom(filter: Option<Filter>, before: seq<Visit>, started: bool): Option<Evaluator>
    requires Usable(filter)
  {
    if filter.None? then None else Some(if started then Build(filter.value).value else EvalAfter(filter.value, before))
  }

  function Emits(judged: Option<Evaluator>, cells: Row): Row { if judged.None? then cells else EmitFrom(judged.value, cells) }

  function PartOf(filter: Option<Filter>, before: seq<Visit>, v: Visit): Part
    requires Usable(filter)
  {
    Part(Emits(JudgedFrom(filter, before, v.started), v.cells), v.started)
  }

  function Parts(filter: Option<Filter>, vs: seq<Visit>): (parts: seq<Part>)
    requires Usable(filter)
    ensures |parts| == |vs|
    decreases |vs|
  {
    if vs == [] then []
    else Parts(filter, vs[..|vs| - 1]) + [PartOf(filter, vs[..|vs| - 1], vs[|vs| - 1])]
  }

  lemma PartsSnoc(filter: Option<Filter>, vs: seq<Visit>, v: Visit)
    requires Usable(filter)
    ensures Parts(filter, vs + [v]) == Parts(filter, vs) + [PartOf(filter, vs, v)]
  {
    assert (vs + [v])[..|vs|] == vs;
  }

  lemma {:induction false} PartsAt(filter: Option<Filter>, vs: seq<Visit>, n: nat)
    requires Usable(filter) && n < |vs|
    ensures Parts(filter, vs)[..n] == Parts(filter, vs[..n]) && Parts(filter, vs)[n] == PartOf(filter, vs[..n], vs[n])
    decreases |vs|
  {
    hide PartOf;
    var k := |vs| - 1;
    if n < k {
      PartsAt(filter, vs[..k], n);
      assert vs[..k][..n] == vs[..n];
      assert Parts(filter, vs)[..n] == Parts(filter, vs[..k])[..n];
    } else {
      assert Parts(filter, vs)[..n] == Parts(filter, vs[..k]);
    }
  }
}
