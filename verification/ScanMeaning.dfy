/** When a ReadRows scan is the filter's meaning on each row alone (pkg/bigtable/readrows.go): exactly
    when none of its ranges starts with a cell of the empty row. */
module ScanMeaning {
  import opened Bytes
  import opened Encoding
  import opened Pebble
  import opened Filter
  import opened FilterMeaning
  import opened Chunks
  import opened Scan
  import opened Emission

  function RowsOf(vs: seq<Visit>): (rows: seq<Row>)
    ensures |rows| == |vs| && forall i :: 0 <= i < |vs| ==> rows[i] == vs[i].cells
  {
    seq(|vs|, i requires 0 <= i < |vs| => vs[i].cells)
  }

  /** The first `limit` rows; all of them for a limit of 0. */
  function FirstRows(rows: seq<Row>, limit: int): seq<Row> { if 0 < limit < |rows| then rows[..limit] else rows }

  /** The chunk stream of a scan is that of its first rows, each filtered on its own and committed. */
  ghost predicate MeansRows(vs: seq<Visit>, filter: Option<Filter>, limit: int)
    requires Usable(filter)
  {
    Mixed(Parts(filter, Limited(vs, limit))).log == Stream(EmittedAll(filter, FirstRows(RowsOf(vs), limit))).log
  }

  predicate AllStarted(vs: seq<Visit>) { forall i :: 0 <= i < |vs| ==> vs[i].started }

  /* ---- Started rows only ---- */

  lemma {:induction false} StartedCount(vs: seq<Visit>)
    requires AllStarted(vs)
    ensures StartedRows(vs) == |vs|
    decreases |vs|
  {
    if vs != [] { StartedCount(vs[..|vs| - 1]); }
  }

  lemma {:induction false} LimitedStarted(vs: seq<Visit>, limit: int)
    requires AllStarted(vs)
    ensures RowsOf(Limited(vs, limit)) == FirstRows(RowsOf(vs), limit) && AllStarted(Limited(vs, limit))
    decreases |vs|
  {
    if limit > 0 && vs != [] {
      var n := |vs| - 1;
      StartedCount(vs[..n]);
      if n >= limit { LimitedStarted(vs[..n], limit); }
    }
  }

  lemma {:induction false} PartsOfStarted(filter: Option<Filter>, vs: seq<Visit>)
    requires Usable(filter) && AllStarted(vs)
    ensures Parts(filter, vs) == Started(EmittedAll(filter, RowsOf(vs)))
    decreases |vs|
  {
    hide EmitFrom, Emitted;
    if vs != [] {
      var n := |vs| - 1;
      PartsOfStarted(filter, vs[..n]);
      if filter.Some? { EmitIsMeaning(filter.value, vs[n].cells); } else { MeaningAlone(filter, vs[n].cells); }
      assert PartOf(filter, vs[..n], vs[n]) == Part(Emitted(filter, vs[n].cells), true);
      var last := Part(Emitted(filter, vs[n].cells), true);
      assert Started(EmittedAll(filter, RowsOf(vs))) == Started(EmittedAll(filter, RowsOf(vs[..n]))) + [last];
    }
  }

  lemma MeaningAlone(filter: Option<Filter>, cells: Row)
    requires filter.None?
    ensures Emitted(filter, cells) == cells
  {
  }

  lemma StartedMeansRows(vs: seq<Visit>, filter: Option<Filter>, limit: int)
    requires Usable(filter) && AllStarted(vs)
    ensures MeansRows(vs, filter, limit)
  {
    hide Mixed, Stream, Parts, Limited;
    LimitedStarted(vs, limit);
    PartsOfStarted(filter, Limited(vs, limit));
    StartedStream(EmittedAll(filter, RowsOf(Limited(vs, limit))));
  }

  /* ---- A filter that tells a row that was not started ---- */

  /** The first cell of each row, without its value. */
  const ONE_CELL: Filter := Chain([CellsPerRowLimit(1), StripValue])

  function OneCell(passed: int): Evaluator { ChainStage([LimitStage(1, passed), Stage(StripValue)]) }

  lemma OneCellBuilds()
    ensures Build(ONE_CELL) == Some(OneCell(0)) && HasStripValue(OneCell(0)) && HasStripValue(OneCell(1))
  {
    var fs := [CellsPerRowLimit(1), StripValue];
    assert fs[1..] == [StripValue] && [StripValue][1..] == [];
    assert BuildAll([StripValue]) == Some([Stage(StripValue)]) by { assert [Stage(StripValue)] + [] == [Stage(StripValue)]; }
    assert [LimitStage(1, 0)] + [Stage(StripValue)] == [LimitStage(1, 0), Stage(StripValue)];
    assert forall p :: [LimitStage(1, p), Stage(StripValue)][1..] == [Stage(StripValue)];
  }

  lemma OneCellSteps(c: CellInfo)
    ensures Step(OneCell(0), c) == (OneCell(1), true) && Step(OneCell(1), c) == (OneCell(1), false)
  {
    var rest := [Stage(StripValue)];
    assert forall p :: [LimitStage(1, p), Stage(StripValue)][1..] == rest;
    assert rest[1..] == [] && StepChain(rest, c) == (rest, true) by { assert [Stage(StripValue)] + [] == rest; }
    assert forall p: int :: [LimitStage(1, p)] + rest == [LimitStage(1, p), Stage(StripValue)];
  }

  lemma {:induction false} OneCellIsDone(cells: Row)
    ensures After(OneCell(1), cells) == OneCell(1) && Select(cells, Verdicts(OneCell(1), cells), true) == []
    decreases |cells|
  {
    hide Step;
    if cells != [] {
      OneCellSteps(cells[0]);
      OneCellIsDone(cells[1..]);
    }
  }

  lemma OneCellEmits(cells: Row)
    requires cells != []
    ensures EmitFrom(OneCell(0), cells) == [cells[0].(value := [])] && EmitFrom(OneCell(1), cells) == []
    ensures After(OneCell(0), cells) == OneCell(1) == After(OneCell(1), cells)
  {
    hide Step, HasStripValue;
    OneCellBuilds();
    OneCellSteps(cells[0]);
    OneCellIsDone(cells[1..]);
    OneCellIsDone(cells);
    assert Verdicts(OneCell(0), cells)[1..] == Verdicts(OneCell(1), cells[1..]);
    assert Select(cells, Verdicts(OneCell(0), cells), true) == [cells[0]];
  }

  ghost predicate Filled(vs: seq<Visit>) { forall i :: 0 <= i < |vs| ==> vs[i].cells != [] }

  lemma OneCellAfter(vs: seq<Visit>)
    requires Filled(vs)
    ensures Usable(Some(ONE_CELL)) && EvalAfter(ONE_CELL, vs) == if vs == [] then OneCell(0) else OneCell(1)
    decreases |vs|
  {
    hide After, Build;
    OneCellBuilds();
    if vs != [] {
      OneCellAfter(vs[..|vs| - 1]);
      OneCellEmits(vs[|vs| - 1].cells);
    }
  }

  /** A visit emits one cell if it was started or is the first of all, else nothing. */
  lemma OneCellPart(vs: seq<Visit>, v: Visit)
    requires Filled(vs) && v.cells != []
    ensures Usable(Some(ONE_CELL))
    ensures PartOf(Some(ONE_CELL), vs, v).cells == if v.started || vs == [] then [v.cells[0].(value := [])] else []
  {
    hide After, EmitFrom, Build;
    OneCellBuilds();
    OneCellAfter(vs);
    OneCellEmits(v.cells);
  }

  lemma OneChunk(c: CellInfo)
    requires c.value == []
    ensures |RowChunks([c])| == 1 && !RowChunks([c])[0].commit && Pending(0, [c]) == 1
  {
    assert [c][..0] == [];
    RowChunksUncommitted([c]);
    OneChunkEach([c]);
  }

  /** How many chunks come: fewer than visits if a visit after the first was not started. */
  lemma {:induction false} FewerChunks(vs: seq<Visit>)
    requires Filled(vs)
    ensures Usable(Some(ONE_CELL)) && |Mixed(Parts(Some(ONE_CELL), vs)).log| <= |vs|
    ensures (exists i :: 0 < i < |vs| && !vs[i].started) ==> |Mixed(Parts(Some(ONE_CELL), vs)).log| < |vs|
    decreases |vs|
  {
    hide PartOf, RowChunks, Pending;
    OneCellAfter([]);
    if vs != [] {
      var n := |vs| - 1;
      FewerChunks(vs[..n]);
      OneCellPart(vs[..n], vs[n]);
      LastPart(Some(ONE_CELL), vs);
      OneChunk(vs[n].cells[0].(value := []));
      NothingPending(0);
    }
  }

  /** The stream after the last visit. */
  lemma LastPart(filter: Option<Filter>, vs: seq<Visit>)
    requires Usable(filter) && vs != []
    ensures var n := |vs| - 1;
      var o := AddRow(Mixed(Parts(filter, vs[..n])), PartOf(filter, vs[..n], vs[n]).cells);
      Mixed(Parts(filter, vs)) == if vs[n].started then Commit(o) else o
  {
    hide AddRow, Commit;
    var n := |vs| - 1;
    var parts := Parts(filter, vs);
    assert parts[..n] == Parts(filter, vs[..n]);
  }

  /** A first visit that was not started keeps its chunk uncommitted if all others were. */
  lemma {:induction false} FirstUncommitted(vs: seq<Visit>)
    requires Filled(vs) && vs != [] && !vs[0].started && forall i :: 0 < i < |vs| ==> vs[i].started
    ensures Usable(Some(ONE_CELL))
    ensures var log := Mixed(Parts(Some(ONE_CELL), vs)).log; log != [] && !log[0].commit
    decreases |vs|
  {
    OneCellAfter([]);
    var n := |vs| - 1;
    var c := vs[n].cells[0].(value := []);
    FilledBut(vs);
    hide PartOf, RowChunks, Pending, Mixed, Parts, AddRow, Commit, Filled;
    OneCellPart(vs[..n], vs[n]);
    LastPart(Some(ONE_CELL), vs);
    AddsOneChunk(Mixed(Parts(Some(ONE_CELL), vs[..n])), c, vs[n].started);
    if n > 0 {
      FirstUncommitted(vs[..n]);
    } else {
      NoParts(Some(ONE_CELL));
      assert vs[..0] == [];
    }
  }

  lemma FilledBut(vs: seq<Visit>)
    requires Filled(vs) && vs != []
    ensures Filled(vs[..|vs| - 1]) && vs[|vs| - 1].cells != []
  {
  }

  lemma NoParts(filter: Option<Filter>)
    requires Usable(filter)
    ensures Mixed(Parts(filter, [])) == Out([], 0)
  {
  }

  /** One more chunk, committed or not, leaves the first one alone if there was one. */
  lemma AddsOneChunk(o: Out, c: CellInfo, commit: bool)
    requires c.value == []
    ensures var t := if commit then Commit(AddRow(o, [c])) else AddRow(o, [c]);
      && t.log != []
      && (o.log != [] ==> t.log[0] == o.log[0])
      && (o.log == [] && !commit ==> !t.log[0].commit)
  {
    hide Pending;
    OneChunk(c);
  }

  lemma EmitsOneCell(row: Row)
    requires row != []
    ensures Usable(Some(ONE_CELL)) && Emitted(Some(ONE_CELL), row) == [row[0].(value := [])]
  {
    hide EmitFrom, Emitted, Build;
    OneCellBuilds();
    EmitIsMeaning(ONE_CELL, row);
    OneCellEmits(row);
  }

  /** The meaning has one chunk for each row, the first one committed. */
  lemma {:induction false} MeaningChunks(rows: seq<Row>)
    requires forall i :: 0 <= i < |rows| ==> rows[i] != []
    ensures Usable(Some(ONE_CELL)) && |Stream(EmittedAll(Some(ONE_CELL), rows)).log| == |rows|
    ensures rows != [] ==> Stream(EmittedAll(Some(ONE_CELL), rows)).log[0].commit
    decreases |rows|
  {
    hide Emitted, RowChunks, Pending;
    OneCellAfter([]);
    if rows != [] {
      var n := |rows| - 1;
      var all := EmittedAll(Some(ONE_CELL), rows);
      MeaningChunks(rows[..n]);
      assert all[..n] == EmittedAll(Some(ONE_CELL), rows[..n]);
      EmitsOneCell(rows[n]);
      OneChunk(rows[n][0].(value := []));
      if n == 0 { assert all[..0] == []; }
    }
  }

  lemma NotStartedDiffers(vs: seq<Visit>)
    requires Filled(vs) && !AllStarted(vs)
    ensures Usable(Some(ONE_CELL)) && !MeansRows(vs, Some(ONE_CELL), 0)
  {
    hide Mixed, Stream, Parts, EmittedAll, Usable, Emitted;
    MeaningChunks(RowsOf(vs));
    FewerChunks(vs);
    NoLimit(vs);
    var i :| 0 <= i < |vs| && !vs[i].started;
    if j :| 0 < j < |vs| && !vs[j].started {
      assert |Mixed(Parts(Some(ONE_CELL), vs)).log| < |vs|;
    } else {
      FirstUncommitted(vs);
    }
  }

  lemma NoLimit(vs: seq<Visit>)
    ensures Limited(vs, 0) == vs && FirstRows(RowsOf(vs), 0) == RowsOf(vs)
  {
  }

  /* ---- The condition on the ranges ---- */

  ghost predicate AllStartNamed(db: DB, ranges: seq<KeyRange>, reversed: bool) {
    forall i :: 0 <= i < |ranges| ==> StartsNamed(db, ScanKeys(db, ranges[i], reversed))
  }

  lemma RangeStartsNamed(cells: Row)
    ensures Filled(RangeVisits(Group(cells)))
    ensures AllStarted(RangeVisits(Group(cells))) <==> cells == [] || cells[0].cell.row != []
  {
    hide Group, Concat;
    var rows := Group(cells);
    GroupConcat(cells);
    if rows != [] {
      FirstOfConcat(rows);
      assert RangeVisits(rows)[0].started <==> cells[0].cell.row != [];
      assert forall i :: 0 < i < |rows| ==> RangeVisits(rows)[i].started;
    }
  }

  lemma {:induction false} FirstOfConcat(rows: seq<Row>)
    requires NonEmpty(rows) && rows != []
    ensures Concat(rows) != [] && Concat(rows)[0] == rows[0][0]
    decreases |rows|
  {
    if |rows| > 1 { FirstOfConcat(rows[..|rows| - 1]); } else { assert rows[..0] == []; }
  }

  lemma VisitsJoin(a: seq<Visit>, b: seq<Visit>)
    ensures AllStarted(a + b) <==> AllStarted(a) && AllStarted(b)
    ensures Filled(a) && Filled(b) ==> Filled(a + b)
  {
    assert forall i :: 0 <= i < |a| ==> (a + b)[i] == a[i];
    assert forall i :: 0 <= i < |b| ==> (a + b)[|a| + i] == b[i];
  }

  lemma NamedMeans(db: DB, ks: seq<bytes>)
    ensures StartsNamed(db, ks) <==> Cells(db, ks) == [] || Cells(db, ks)[0].cell.row != []
  {
  }

  lemma NamedSnoc(db: DB, ranges: seq<KeyRange>, reversed: bool)
    requires ranges != []
    ensures var n := |ranges| - 1;
      AllStartNamed(db, ranges, reversed) <==>
        AllStartNamed(db, ranges[..n], reversed) && StartsNamed(db, ScanKeys(db, ranges[n], reversed))
  {
    hide StartsNamed, ScanKeys;
    assert forall i :: 0 <= i < |ranges| - 1 ==> ranges[..|ranges| - 1][i] == ranges[i];
  }

  lemma {:induction false} StartedIffNamed(db: DB, ranges: seq<KeyRange>, reversed: bool)
    ensures Filled(Visits(db, ranges, reversed))
    ensures AllStarted(Visits(db, ranges, reversed)) <==> AllStartNamed(db, ranges, reversed)
    decreases |ranges|
  {
    if ranges != [] {
      hide Cells, Group, RangeVisits, ScanKeys, Filled, AllStarted, StartsNamed, AllStartNamed;
      var n := |ranges| - 1;
      var before, last := Visits(db, ranges[..n], reversed), VisitsIn(db, ranges[n], reversed);
      StartedIffNamed(db, ranges[..n], reversed);
      RangeStartsNamed(Cells(db, ScanKeys(db, ranges[n], reversed)));
      NamedMeans(db, ScanKeys(db, ranges[n], reversed));
      NamedSnoc(db, ranges, reversed);
      VisitsJoin(before, last);
    }
  }

  /** For every database and list of ranges: a scan delivers the filter's meaning on each row alone,
      committed row by row, for all filters and limits, exactly when no range starts with a cell of
      the empty row. */
  lemma ScanMeansRowsIff(db: DB, ranges: seq<KeyRange>, reversed: bool)
    ensures (forall filter, limit :: Usable(filter) ==> MeansRows(Visits(db, ranges, reversed), filter, limit))
        <==> AllStartNamed(db, ranges, reversed)
  {
    hide MeansRows, Usable;
    var vs := Visits(db, ranges, reversed);
    StartedIffNamed(db, ranges, reversed);
    if AllStarted(vs) {
      forall filter, limit | Usable(filter)
        ensures MeansRows(vs, filter, limit)
      {
        StartedMeansRows(vs, filter, limit);
      }
    } else {
      NotStartedDiffers(vs);
    }
  }
}
