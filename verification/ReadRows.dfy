/** The ReadRows scan loop (pkg/bigtable/readrows.go). */
module ReadRows {
  import opened Bytes
  import opened Encoding
  import opened Decoding
  import opened Bounds
  import opened Pebble
  import opened Filter
  import opened FilterMeaning
  import opened Chunks
  import opened Scan
  import opened Emission

  /* ---- The state of the loop ---- */

  function AllVisits(closed: seq<Visit>, current: Row, started: bool): seq<Visit> {
    if current == [] then closed else closed + [Visit(current, started)]
  }

  /** The output while `current` is being read. */
  function OutputOf(filter: Option<Filter>, closed: seq<Visit>, current: Row, started: bool): Out
    requires Usable(filter)
  {
    AddRow(Mixed(Parts(filter, closed)), Emits(JudgedFrom(filter, closed, started), current))
  }

  /** The evaluator can be reset, and has judged exactly `current` since the visit began. */
  ghost predicate Judged(filter: Option<Filter>, closed: seq<Visit>, current: Row, started: bool,
                         eval: Option<Evaluator>)
    requires Usable(filter)
  {
    && (filter.Some? <==> eval.Some?)
    && (eval.Some? ==> Reset(eval.value) == Build(filter.value).value)
    && (eval.Some? && (current != [] || !started) ==> eval.value == After(JudgedFrom(filter, closed, started).value, current))
  }

  /** The visits after one more cell. */
  function VisitsAfter(closed: seq<Visit>, current: Row, started: bool, c: CellInfo): seq<Visit> {
    if current != [] && RowOf(current) == c.cell.row then closed + [Visit(current + [c], started)]
    else AllVisits(closed, current, started) + [Visit([c], current != [] || c.cell.row != [])]
  }

  /** Before a cell of the current row, or of the row about to begin, was appended in vain. */
  ghost predicate Lost(filter: Option<Filter>, closed: seq<Visit>, current: Row, started: bool, delivered: seq<Chunk>)
    requires Usable(filter) && current != []
  {
    var o := OutputOf(filter, closed, current[..|current| - 1], started);
    o.pending <= |o.log| && delivered == Final(o)
  }

  /* ---- Closing a visit ---- */

  lemma NothingOpen(filter: Option<Filter>, closed: seq<Visit>, started: bool)
    requires Usable(filter)
    ensures OutputOf(filter, closed, [], started) == Mixed(Parts(filter, closed))
  {
    AddNothing(Mixed(Parts(filter, closed)));
    var judged := JudgedFrom(filter, closed, started);
    if judged.Some? { EmitNothing(judged.value); }
  }

  lemma CloseVisit(filter: Option<Filter>, closed: seq<Visit>, current: Row, started: bool)
    requires Usable(filter)
    ensures var o := OutputOf(filter, closed, current, started);
      Mixed(Parts(filter, closed + [Visit(current, started)])) == if started then Commit(o) else o
  {
    hide Emits, AddRow, Commit, JudgedFrom;
    PartsSnoc(filter, closed, Visit(current, started));
    var parts := Parts(filter, closed);
    assert (parts + [PartOf(filter, closed, Visit(current, started))])[..|parts|] == parts;
  }

  lemma CommitClosed(filter: Option<Filter>, closed: seq<Visit>)
    requires Usable(filter) && closed != [] && closed[|closed| - 1].started
    ensures Commit(Mixed(Parts(filter, closed))) == Mixed(Parts(filter, closed))
  {
    hide Emits, AddRow, Commit, JudgedFrom;
    var n := |closed| - 1;
    assert closed == closed[..n] + [Visit(closed[n].cells, true)];
    CloseVisit(filter, closed[..n], closed[n].cells, true);
    CommitTwice(OutputOf(filter, closed[..n], closed[n].cells, true));
  }

  /** The evaluator as the visit leaves it. */
  lemma CloseJudged(filter: Option<Filter>, closed: seq<Visit>, current: Row, started: bool, eval: Option<Evaluator>)
    requires Usable(filter) && current != [] && Judged(filter, closed, current, started, eval)
    ensures Judged(filter, closed + [Visit(current, started)], [], false, eval)
  {
    hide After, Reset, Build;
    assert (closed + [Visit(current, started)])[..|closed|] == closed;
    if eval.Some? { AfterNothing(eval.value); }
  }

  lemma AfterNothing(e: Evaluator)
    ensures After(e, []) == e
  {
  }

  lemma MoreStarted(vs: seq<Visit>, v: Visit)
    ensures StartedRows(vs + [v]) == StartedRows(vs) + if v.started then 1 else 0
  {
    assert (vs + [v])[..|vs|] == vs;
  }

  /* ---- One cell ---- */

  /** What is sent for a cell that passes. */
  function Sent(eval: Option<Evaluator>, c: CellInfo): CellInfo {
    if eval.Some? && HasStripValue(eval.value) then c.(value := []) else c
  }

  function Passes(eval: Option<Evaluator>, c: CellInfo): bool { eval.None? || Step(eval.value, c).1 }

  method JudgeCell(eval: Option<Evaluator>, c: CellInfo) returns (eval': Option<Evaluator>, pass: bool, out: CellInfo)
    ensures pass == Passes(eval, c) && out == Sent(eval, c)
    ensures eval' == if eval.None? then None else Some(Step(eval.value, c).0)
  {
    if eval.None? { return None, true, c; }
    hide Step;
    var (e', verdict) := Step(eval.value, c);
    var strip := HasStripValue(eval.value);
    eval', pass, out := Some(e'), verdict, if strip then c.(value := []) else c;
  }

  /** The verdict on the next cell of a visit. */
  lemma JudgeNext(filter: Option<Filter>, closed: seq<Visit>, current: Row, started: bool, eval: Option<Evaluator>,
                  c: CellInfo)
    requires Usable(filter) && (filter.Some? <==> eval.Some?)
    requires eval.Some? ==> eval.value == After(JudgedFrom(filter, closed, started).value, current)
    requires eval.Some? ==> Reset(eval.value) == Build(filter.value).value
    ensures var judged := JudgedFrom(filter, closed, started);
      Emits(judged, current + [c]) == Emits(judged, current) + if Passes(eval, c) then [Sent(eval, c)] else []
    ensures Judged(filter, closed, current + [c], started, if eval.None? then None else Some(Step(eval.value, c).0))
  {
    hide Step, Reset, HasStripValue, EmitFrom;
    if eval.Some? {
      var e := JudgedFrom(filter, closed, started).value;
      EmitSnoc(e, current, c);
      VerdictsSnoc(e, current, c);
      ResetForgetsCell(eval.value, c);
    }
  }

  /** ... and what it adds to the output. */
  lemma OutputNext(filter: Option<Filter>, closed: seq<Visit>, current: Row, started: bool, c: CellInfo, pass: bool,
                   out: CellInfo)
    requires Usable(filter)
    requires var judged := JudgedFrom(filter, closed, started);
      Emits(judged, current + [c]) == Emits(judged, current) + if pass then [out] else []
    ensures var o := OutputOf(filter, closed, current, started);
      OutputOf(filter, closed, current + [c], started) == if pass then Add(o, out) else o
  {
    hide Emits, Add, AddRow;
    var judged := JudgedFrom(filter, closed, started);
    var o := Mixed(Parts(filter, closed));
    if pass {
      AddRowSnoc(o, Emits(judged, current), out);
    } else {
      assert Emits(judged, current) + [] == Emits(judged, current);
    }
  }

  datatype Progress = Continue | LimitReached | SendFailed

  /** The variables of the scan loop.  `closed` are the visits before the current one. */
  class Scanner {
    const filter: Option<Filter>
    const rowsLimit: int
    const sender: Sender
    const dec: CellDecoder
    var eval: Option<Evaluator>
    var rowCount: nat
    var lastRowKey: bytes
    var rowStarted: bool
    ghost var closed: seq<Visit>
    ghost var current: Row

    ghost predicate Valid()
      reads this, sender
    {
      && Usable(filter) && Judged(filter, closed, current, rowStarted, eval)
      && sender.Holds(OutputOf(filter, closed, current, rowStarted))
      && (current != [] ==> RowOf(current) == lastRowKey)
      && (!rowStarted ==> lastRowKey == [])
    }

    /** All visits so far. */
    ghost function All(): seq<Visit>
      reads this
    {
      AllVisits(closed, current, rowStarted)
    }

    /** Started rows are counted, and the limit is not exceeded. */
    ghost predicate Counted()
      reads this
    {
      rowCount == StartedRows(All()) && (rowsLimit > 0 ==> rowCount <= rowsLimit)
    }

    /** Between two entries of a range. */
    ghost predicate Reading()
      reads this
    {
      Counted() && (rowStarted ==> current != []) && (rowsLimit > 0 && !rowStarted ==> rowCount < rowsLimit)
    }

    constructor (filter: Option<Filter>, rowsLimit: int, sender: Sender)
      requires Usable(filter)
      requires sender.delivered == [] && sender.buf == []
      ensures this.filter == filter && this.rowsLimit == rowsLimit && this.sender == sender && fresh(dec)
      ensures Valid() && Counted() && closed == [] && current == [] && !rowStarted && rowCount == 0
    {
      this.filter, this.rowsLimit, this.sender := filter, rowsLimit, sender;
      eval := if filter.Some? then Some(Build(filter.value).value) else None;
      rowCount, lastRowKey, rowStarted, closed, current := 0, [], false, [], [];
      dec := new CellDecoder();
      new;
      NothingOpen(filter, [], false);
      if filter.Some? { BuiltIsReset(filter.value); }
    }

    /** A row boundary: commit, count, compare with the limit, reset the filter. */
    method StartRow(row: bytes) returns (limited: bool)
      requires Valid() && Reading()
      modifies this, sender`buf
      ensures Valid() && closed == old(All()) && current == [] && rowStarted && rowCount == old(rowCount) + 1
      ensures limited <==> rowsLimit > 0 && old(rowCount) == rowsLimit
      ensures limited ==> closed != [] && closed[|closed| - 1].started
      ensures !limited ==> lastRowKey == row && eval == JudgedFrom(filter, closed, true)
    {
      hide OutputOf, Judged, Mixed, Parts, StartedRows;
      CloseVisit(filter, closed, current, rowStarted);
      if current != [] { CloseJudged(filter, closed, current, rowStarted, eval); }
      if rowStarted { sender.CommitLast(); }
      ghost var o := Mixed(Parts(filter, All()));
      NothingOpen(filter, closed, rowStarted);
      assert sender.Holds(o);
      closed, current := All(), [];
      NothingOpen(filter, closed, rowStarted);
      NothingOpen(filter, closed, true);
      rowCount := rowCount + 1;
      limited := rowsLimit > 0 && rowCount > rowsLimit;
      if limited {
        StillResettable(filter, closed, eval);
        return;
      }
      eval := ResetEval();
      lastRowKey, rowStarted := row, true;
    }

    /** The reset at a row boundary. */
    method ResetEval() returns (r: Option<Evaluator>)
      requires Usable(filter) && Judged(filter, closed, [], false, eval)
      ensures r == JudgedFrom(filter, closed, true) && Judged(filter, closed, [], true, r)
    {
      if eval.None? { return None; }
      r := Some(Reset(eval.value));
      BuiltIsReset(filter.value);
    }

    /** A decoded cell: the row boundary, the verdict, the output.  A cell of the empty row at the
        start of a range is no row boundary. */
    method OnCell(c: CellInfo) returns (p: Progress)
      requires Valid() && Reading()
      modifies this, sender`sends, sender`delivered, sender`buf
      ensures p.Continue? ==> Valid() && Reading()
      ensures !p.LimitReached? ==> current != [] && All() == VisitsAfter(old(closed), old(current), old(rowStarted), c)
      ensures p.LimitReached? ==>
        && Valid() && Full() && closed == old(All())
        && old(current) != [] && RowOf(old(current)) != c.cell.row
      ensures p.SendFailed? ==>
        && Usable(filter) && Lost(filter, closed, current, rowStarted, sender.delivered)
        && (rowsLimit > 0 ==> StartedRows(closed) < rowsLimit)
    {
      hide OutputOf, Judged, Mixed, Parts, StartedRows, JudgedFrom, Lost;
      BoundaryCounts(closed, current, rowStarted);
      if c.cell.row != lastRowKey {
        var limited := StartRow(c.cell.row);
        if limited { return LimitReached; }
      }
      assert [] + [c] == [c];
      var sent := EmitCell(c);
      BoundaryCounts(closed, current, rowStarted);
      return if sent then Continue else SendFailed;
    }

    /** The verdict on a cell of the current visit, and the chunks of a cell that passes. */
    method EmitCell(c: CellInfo) returns (sent: bool)
      requires Valid() && RowOf([c]) == lastRowKey
      requires current == [] && rowStarted ==> eval == JudgedFrom(filter, closed, true)
      modifies `eval, `current, sender`sends, sender`delivered, sender`buf
      ensures current == old(current) + [c] && (sent ==> Valid())
      ensures Usable(filter) && (!sent ==> Lost(filter, closed, current, rowStarted, sender.delivered))
    {
      hide OutputOf, Judged, Mixed, Parts, Passes, Sent, Step, JudgedFrom, Emits, Add, Reset;
      OpenVisit(filter, closed, current, rowStarted, eval);
      JudgeNext(filter, closed, current, rowStarted, eval, c);
      var pass, out;
      ghost var o := OutputOf(filter, closed, current, rowStarted);
      eval, pass, out := JudgeCell(eval, c);
      OutputNext(filter, closed, current, rowStarted, c, pass, out);
      sent := true;
      if pass { sent := sender.Append(out, o); }
      assert (current + [c])[..|current|] == current;
      current := current + [c];
    }

    /** The limit has struck: the last row was committed at the boundary already. */
    ghost predicate Full()
      reads this
    {
      && current == [] && rowStarted && closed != [] && closed[|closed| - 1].started
      && rowsLimit > 0 && StartedRows(closed) == rowsLimit && rowCount == rowsLimit + 1
    }

    /** The first j entries of a range have been read, after the visits `before`. */
    ghost predicate ReadTo(db: DB, ks: seq<bytes>, j: nat, before: seq<Visit>)
      reads this
    {
      && j <= |ks|
      && All() == before + RangeVisits(Group(Cells(db, ks[..j]))) && (current == [] <==> Group(Cells(db, ks[..j])) == [])
    }

    /** A Send failed in the middle of a visit. */
    ghost predicate CutShort(all: seq<Visit>)
      reads this, sender
    {
      && Usable(filter) && current != [] && (rowsLimit > 0 ==> StartedRows(closed) < rowsLimit)
      && Lost(filter, closed, current, rowStarted, sender.delivered)
      && |closed| < |all| && closed == all[..|closed|] && Begins(current, rowStarted, all[|closed|])
    }

    /** One entry of a range. */
    method OnEntry(db: DB, ks: seq<bytes>, j: nat, ghost before: seq<Visit>) returns (p: Progress)
      requires Valid() && Reading() && j < |ks| && ks[j] in db && ReadTo(db, ks, j, before)
      modifies this, sender`sends, sender`delivered, sender`buf, dec
      ensures p.Continue? ==> Valid() && Reading() && ReadTo(db, ks, j + 1, before)
      ensures p.LimitReached? ==> Valid() && Full() && closed <= before + RangeVisits(Group(Cells(db, ks)))
      ensures p.SendFailed? ==> CutShort(before + RangeVisits(Group(Cells(db, ks))))
    {
      hide OutputOf, Judged, Group, Cells, RowOf, NonEmpty, VisitsAfter, RangeVisits, StartedRows, Lost, JudgedFrom,
           Begins, Decoded, Build, Reset, After, Step, Test, Mixed, Parts, Usable;
      GroupEntry(db, ks, j);
      var r := dec.Decode(ks[j]);
      if r.None? {
        assert Cells(db, ks[..j]) + [] == Cells(db, ks[..j]);
        return Continue;
      }
      var c := CellInfo(r.value, db[ks[j]]);
      ghost var closed0, current0, started0 := closed, current, rowStarted;
      p := OnCell(c);
      if p.LimitReached? {
        LimitIsPrefix(db, ks, j, before, closed0, current0, started0);
      } else {
        CellIsRead(db, ks, j, before, closed0, current0, started0, c);
        if p.SendFailed? { OpenVisitIsPartial(db, ks, j + 1, before, closed, current, rowStarted); }
      }
    }

    /** The end of a range: a started row is committed, and the next range starts afresh. */
    method EndRange()
      requires Valid() && (rowStarted && current == [] ==> closed != [] && closed[|closed| - 1].started)
      modifies this, sender`buf
      ensures closed == old(All()) && current == [] && !rowStarted && rowCount == old(rowCount)
      ensures Usable(filter) && sender.Holds(Mixed(Parts(filter, closed)))
      ensures !(old(rowStarted) && old(current) == []) ==> Valid()
    {
      hide OutputOf, Judged, Mixed, Parts;
      CloseVisit(filter, closed, current, rowStarted);
      NothingOpen(filter, closed, rowStarted);
      if current != [] { CloseJudged(filter, closed, current, rowStarted, eval); }
      if rowStarted {
        if current == [] { CommitClosed(filter, closed); }
        sender.CommitLast();
      }
      closed, current := All(), [];
      rowStarted, lastRowKey := false, [];
      NothingOpen(filter, closed, false);
    }

    /** The inner loop, over the entries of one range. */
    method ScanRange(db: DB, ks: seq<bytes>) returns (p: Progress)
      requires Valid() && Reading() && current == [] && !rowStarted
      requires forall i :: 0 <= i < |ks| ==> ks[i] in db
      modifies this, sender`sends, sender`delivered, sender`buf, dec
      ensures !p.SendFailed? ==>
        current == [] && !rowStarted && Usable(filter) && sender.Holds(Mixed(Parts(filter, closed)))
      ensures p.Continue? ==> Valid() && Counted() && closed == old(closed) + RangeVisits(Group(Cells(db, ks)))
      ensures p.LimitReached? ==>
        && closed <= old(closed) + RangeVisits(Group(Cells(db, ks))) && closed != [] && closed[|closed| - 1].started
        && rowsLimit > 0 && StartedRows(closed) == rowsLimit
      ensures p.SendFailed? ==> CutShort(old(closed) + RangeVisits(Group(Cells(db, ks))))
    {
      hide OutputOf, Judged, Group, Cells, RowOf, NonEmpty, RangeVisits, StartedRows, CutShort;
      ghost var before := closed;
      ReadNothing(db, ks);
      ReadAll(db, ks);
      NoRangeVisits();
      assert before + [] == before;
      p := Continue;
      var j := 0;
      while j < |ks|
        invariant Valid() && Reading() && ReadTo(db, ks, j, before) && p.Continue?
      {
        p := OnEntry(db, ks, j, before);
        if p.SendFailed? { return; }
        if p.LimitReached? { break; }
        j := j + 1;
      }
      EndRange();
    }
  }

  lemma OpenVisit(filter: Option<Filter>, closed: seq<Visit>, current: Row, started: bool, eval: Option<Evaluator>)
    requires Usable(filter) && Judged(filter, closed, current, started, eval)
    requires current == [] && started ==> eval == JudgedFrom(filter, closed, true)
    ensures filter.Some? <==> eval.Some?
    ensures eval.Some? ==> eval.value == After(JudgedFrom(filter, closed, started).value, current)
    ensures eval.Some? ==> Reset(eval.value) == Build(filter.value).value
  {
  }

  lemma BoundaryCounts(closed: seq<Visit>, current: Row, started: bool)
    ensures current != [] ==> StartedRows(AllVisits(closed, current, started)) == StartedRows(closed) + if started then 1 else 0
  {
    MoreStarted(closed, Visit(current, started));
  }

  lemma StillResettable(filter: Option<Filter>, closed: seq<Visit>, eval: Option<Evaluator>)
    requires Usable(filter) && Judged(filter, closed, [], false, eval)
    ensures Judged(filter, closed, [], true, eval)
  {
  }

  /* ---- From entries to visits ---- */

  ghost predicate Begins(current: Row, started: bool, v: Visit) { current <= v.cells && started == v.started }

  lemma NoRangeVisits()
    ensures RangeVisits([]) == []
  {
  }

  /** The scanner's bookkeeping follows the grouping. */
  lemma VisitStep(before: seq<Visit>, g: seq<Row>, closed: seq<Visit>, current: Row, started: bool, c: CellInfo)
    requires NonEmpty(g) && AllVisits(closed, current, started) == before + RangeVisits(g) &&
             (current == [] <==> g == [])
    ensures VisitsAfter(closed, current, started, c) == before + RangeVisits(AddCell(g, c))
    ensures g != [] ==> g[|g| - 1] == current
  {
    var r := RangeVisits(AddCell(g, c));
    if current != [] {
      var n := |g| - 1;
      assert (before + RangeVisits(g))[|before| + n] == RangeVisits(g)[n];
      assert (closed + [Visit(current, started)])[|closed|] == Visit(current, started);
      assert |closed| == |before| + n && RangeVisits(g)[n] == Visit(current, started);
      assert closed == before + RangeVisits(g)[..n] by { assert (closed + [Visit(current, started)])[..|closed|] == closed; }
      if RowOf(current) == c.cell.row {
        assert r[..n] == RangeVisits(g)[..n] && r == r[..n] + [Visit(current + [c], started)];
        assert closed + [Visit(current + [c], started)] == before + (RangeVisits(g)[..n] + [Visit(current + [c], started)]);
      } else {
        assert r == RangeVisits(g) + [Visit([c], true)];
      }
    } else {
      assert r == [Visit([c], c.cell.row != [])];
    }
    assert forall v: Visit :: before + RangeVisits(g) + [v] == before + (RangeVisits(g) + [v]);
  }

  lemma CellIsRead(db: DB, ks: seq<bytes>, j: nat, before: seq<Visit>, closed: seq<Visit>, current: Row, started: bool,
                   c: CellInfo)
    requires j < |ks| && ks[j] in db && Decoded(ks[j]).Some? && c == CellInfo(Decoded(ks[j]).value, db[ks[j]])
    requires AllVisits(closed, current, started) == before + RangeVisits(Group(Cells(db, ks[..j])))
    requires current == [] <==> Group(Cells(db, ks[..j])) == []
    ensures Group(Cells(db, ks[..j + 1])) != []
    ensures VisitsAfter(closed, current, started, c) == before + RangeVisits(Group(Cells(db, ks[..j + 1])))
  {
    hide Group, AddCell, VisitsAfter, RangeVisits;
    GroupEntry(db, ks, j);
    VisitStep(before, Group(Cells(db, ks[..j])), closed, current, started, c);
  }

  lemma RangeVisitsPrefix(g: seq<Row>, h: seq<Row>)
    requires NonEmpty(g) && NonEmpty(h) && g <= h
    ensures RangeVisits(g) <= RangeVisits(h)
  {
  }

  /** The rows read when the limit strikes are the first rows of the range. */
  lemma LimitIsPrefix(db: DB, ks: seq<bytes>, j: nat, before: seq<Visit>, closed: seq<Visit>, current: Row,
                      started: bool)
    requires j < |ks| && ks[j] in db && Decoded(ks[j]).Some?
    requires AllVisits(closed, current, started) == before + RangeVisits(Group(Cells(db, ks[..j])))
    requires current != [] && Group(Cells(db, ks[..j])) != [] && RowOf(current) != Decoded(ks[j]).value.row
    ensures AllVisits(closed, current, started) <= before + RangeVisits(Group(Cells(db, ks)))
  {
    hide Group, Cells, AddCell;
    var g := Group(Cells(db, ks[..j]));
    VisitStep(before, g, closed, current, started, CellInfo(Decoded(ks[j]).value, db[ks[j]]));
    GroupIsPrefix(db, ks, j);
    RangeVisitsPrefix(g, Group(Cells(db, ks)));
  }

  /** The visit being read is the beginning of a visit of the range, the visits before it are complete. */
  lemma OpenVisitIsPartial(db: DB, ks: seq<bytes>, j: nat, before: seq<Visit>, closed: seq<Visit>, current: Row,
                           started: bool)
    requires j <= |ks| && current != []
    requires AllVisits(closed, current, started) == before + RangeVisits(Group(Cells(db, ks[..j])))
    requires Group(Cells(db, ks[..j])) != []
    ensures var all := before + RangeVisits(Group(Cells(db, ks)));
      |closed| < |all| && closed == all[..|closed|] && Begins(current, started, all[|closed|])
  {
    hide Group, Cells, RangeVisits;
    CellsGrow(db, ks, j);
    var cells, n := Cells(db, ks), |Cells(db, ks[..j])|;
    assert cells[..n] == Cells(db, ks[..j]);
    NoGroups(cells[..n]);
    GroupExtends(cells, n);
    PartialVisit(before, Group(cells[..n]), Group(cells), closed, current, started);
  }

  lemma NoGroups(cells: Row)
    ensures cells == [] <==> Group(cells) == []
  {
  }

  lemma PartialVisit(before: seq<Visit>, g: seq<Row>, h: seq<Row>, closed: seq<Visit>, current: Row, started: bool)
    requires NonEmpty(g) && NonEmpty(h) && closed + [Visit(current, started)] == before + RangeVisits(g) &&
             0 < |g| <= |h|
    requires g[..|g| - 1] == h[..|g| - 1] && g[|g| - 1] <= h[|g| - 1]
    ensures var all := before + RangeVisits(h); |closed| < |all| && closed == all[..|closed|] && Begins(current, started, all[|closed|])
  {
    var n := |g| - 1;
    var v, w := RangeVisits(g), RangeVisits(h);
    assert (closed + [Visit(current, started)])[|closed|] == v[n] && |closed| == |before| + n;
    assert closed == before + v[..n] by { assert (closed + [Visit(current, started)])[..|closed|] == closed; }
    assert forall i :: 0 <= i < n ==> g[..n][i] == h[..n][i];
    assert v[..n] == w[..n];
    assert closed == (before + w)[..|closed|];
  }

  /* ---- The request ---- */

  lemma VisitsStep(db: DB, ranges: seq<KeyRange>, reversed: bool, i: nat)
    requires i < |ranges|
    ensures Visits(db, ranges[..i + 1], reversed) == Visits(db, ranges[..i], reversed) + VisitsIn(db, ranges[i], reversed)
    ensures Visits(db, ranges[..i + 1], reversed) <= Visits(db, ranges, reversed)
  {
    assert ranges[..i + 1][..i] == ranges[..i];
    VisitsGrow(db, ranges, reversed, i + 1);
  }

  lemma {:induction false} VisitsGrow(db: DB, ranges: seq<KeyRange>, reversed: bool, n: nat)
    requires n <= |ranges|
    ensures Visits(db, ranges[..n], reversed) <= Visits(db, ranges, reversed)
    decreases |ranges|
  {
    if n < |ranges| {
      assert ranges[..|ranges| - 1][..n] == ranges[..n];
      VisitsGrow(db, ranges[..|ranges| - 1], reversed, n);
    } else {
      assert ranges[..n] == ranges;
    }
  }

  /** The range that reaches the limit ends in a started row. */
  lemma LastVisitCounts(before: seq<Visit>, rows: seq<Row>, limit: int)
    requires NonEmpty(rows) && StartedRows(before) < limit <= StartedRows(before + RangeVisits(rows))
    ensures var vs := before + RangeVisits(rows); vs != [] && StartedRows(vs[..|vs| - 1]) < StartedRows(vs)
  {
    var vs := before + RangeVisits(rows);
    assert rows == [] ==> vs == before;
    assert |rows| == 1 ==> vs[..|vs| - 1] == before;
    assert |rows| > 1 ==> vs[|vs| - 1].started;
  }

  /** The scan has read what the limit allows. */
  lemma LimitedBy(all: seq<Visit>, closed: seq<Visit>, limit: int)
    requires closed <= all
    requires if limit > 0 && StartedRows(closed) >= limit
             then closed != [] && StartedRows(closed[..|closed| - 1]) < limit else closed == all
    ensures closed == Limited(all, limit)
  {
    if limit > 0 && StartedRows(closed) >= limit {
      assert closed == all[..|closed|] && all[..|closed| - 1] == closed[..|closed| - 1];
      LimitedIs(all, |closed|, limit);
    } else if limit > 0 && all != [] {
      StartedGrows(all, |all| - 1);
    }
  }

  /** What was delivered when a Send failed is the start of the stream. */
  lemma DeliveredIsPrefix(filter: Option<Filter>, all: seq<Visit>, limit: int, closed: seq<Visit>, current: Row,
                          started: bool, d: seq<Chunk>)
    requires Usable(filter) && current != [] && Lost(filter, closed, current, started, d)
    requires |closed| < |all| && closed == all[..|closed|] && Begins(current, started, all[|closed|])
    requires limit > 0 ==> StartedRows(closed) < limit
    ensures d <= Mixed(Parts(filter, Limited(all, limit))).log
  {
    hide StartedRows, Limited, Parts, Mixed, AddRow, Final, EmitFrom, JudgedFrom;
    var n, vs := |closed|, Limited(all, limit);
    WithinLimit(all, n, limit);
    assert vs[..n] == closed && vs[n] == all[n];
    PartsAt(filter, vs, n);
    var judged, begun := JudgedFrom(filter, closed, started), current[..|current| - 1];
    EmitsGrow(judged, vs[n].cells, |begun|);
    assert vs[n].cells[..|begun|] == begun;
    FinalStays(Parts(filter, vs), n, Emits(judged, begun));
  }

  lemma EmitsGrow(judged: Option<Evaluator>, cells: Row, n: nat)
    requires n <= |cells|
    ensures Emits(judged, cells[..n]) <= Emits(judged, cells)
  {
    if judged.Some? { EmitGrows(judged.value, cells, n); }
  }

  /** The outer loop, over the ranges. */
  method ScanAll(s: Scanner, db: DB, ranges: seq<KeyRange>, reversed: bool) returns (sent: bool)
    requires s.Valid() && s.Counted() && s.closed == [] && s.current == [] && !s.rowStarted && s.rowCount == 0
    modifies s, s.sender`sends, s.sender`delivered, s.sender`buf, s.dec
    ensures var all := Visits(db, ranges, reversed);
      if sent then Usable(s.filter) && s.sender.Holds(Mixed(Parts(s.filter, Limited(all, s.rowsLimit)))) else s.CutShort(all)
  {
    hide Visits, OutputOf, Judged, Group, Cells, ScanKeys, Mixed, Parts, RangeVisits, StartedRows, Limited, Lost,
         Begins;
    ghost var all := Visits(db, ranges, reversed);
    assert ranges[..0] == [] && ranges[..|ranges|] == ranges;
    NoVisits(db, reversed);
    NothingOpen(s.filter, s.closed, false);
    var i := 0;
    while i < |ranges|
      invariant i <= |ranges| && s.Valid() && s.Counted() && s.current == [] && !s.rowStarted
      invariant s.sender.Holds(Mixed(Parts(s.filter, s.closed)))
      invariant s.closed == Visits(db, ranges[..i], reversed) <= all
      invariant s.rowsLimit > 0 ==> s.rowCount < s.rowsLimit
    {
      VisitsStep(db, ranges, reversed, i);
      ghost var before := s.closed;
      var ks := ScanKeys(db, ranges[i], reversed);
      var p := s.ScanRange(db, ks);
      if p.SendFailed? {
        StillCut(s, before + RangeVisits(Group(Cells(db, ks))), all);
        return false;
      }
      i := i + 1;
      if p.LimitReached? {
        FullIsLimited(all, before + RangeVisits(Group(Cells(db, ks))), s.closed, s.rowsLimit);
        return true;
      }
      if s.rowsLimit > 0 && s.rowCount >= s.rowsLimit {
        LastVisitCounts(before, Group(Cells(db, ks)), s.rowsLimit);
        LimitedBy(all, s.closed, s.rowsLimit);
        return true;
      }
    }
    LimitedBy(all, s.closed, s.rowsLimit);
    return true;
  }

  lemma NoVisits(db: DB, reversed: bool)
    ensures Visits(db, [], reversed) == []
    ensures StartedRows([]) == 0
  {
  }

  lemma FullIsLimited(all: seq<Visit>, part: seq<Visit>, closed: seq<Visit>, limit: int)
    requires closed <= part <= all && closed != [] && closed[|closed| - 1].started && limit > 0 &&
             StartedRows(closed) == limit
    ensures closed == Limited(all, limit)
  {
    LimitedBy(all, closed, limit);
  }

  lemma StillCut(s: Scanner, part: seq<Visit>, all: seq<Visit>)
    requires s.CutShort(part) && part <= all
    ensures s.CutShort(all)
  {
    hide Lost, Begins, StartedRows;
  }

  /** ReadRows: the visits of every range up to the limit; what was delivered is the whole chunk
      stream, or a prefix of it if a Send failed. */
  method ReadRowsRequest(db: DB, rowKeys: seq<bytes>, rowRanges: seq<RowRange>, filter: Option<Filter>, rowsLimit: int,
                         reversed: bool, accepts: nat -> bool)
    returns (ok: bool, delivered: seq<Chunk>)
    ensures !Usable(filter) ==> !ok && delivered == []
    ensures Usable(filter) ==>
      var vs := Limited(Visits(db, ScanRanges(rowKeys, rowRanges), reversed), rowsLimit);
      var log := Mixed(Parts(filter, vs)).log;
      delivered <= log && (ok ==> delivered == log)
  {
    hide Visits, OutputOf, Judged, Mixed, Parts, ScanRanges, Build, StartedRows, Limited, Lost, Begins;
    var ranges := ScanRanges(rowKeys, rowRanges);
    if filter.Some? && Build(filter.value).None? { return false, []; }
    var sender := new Sender(accepts);
    var s := new Scanner(filter, rowsLimit, sender);
    var sent := ScanAll(s, db, ranges, reversed);
    if !sent {
      DeliveredIsPrefix(filter, Visits(db, ranges, reversed), rowsLimit, s.closed, s.current, s.rowStarted, sender.delivered);
      return false, sender.delivered;
    }
    ok := sender.Flush();
    return ok, sender.delivered;
  }
}
