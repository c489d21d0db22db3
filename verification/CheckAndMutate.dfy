/** Conditional mutation (pkg/bigtable/mutate.go): the predicate is the filter's meaning on the row. */
module CheckAndMutate {
  import opened Bytes
  import opened Encoding
  import opened Decoding
  import opened Bounds
  import opened Pebble
  import opened Table
  import opened Mutate
  import opened Filter
  import opened FilterMeaning
  import opened Scan
  import opened Emission

  /** The row's cells that its bounds reach, in key order. */
  ghost function RowCells(db: DB, row: bytes): Row { Cells(db, ScanKeys(db, RowKeyBounds(row), false)) }

  /** The row has a cell that the filter keeps; without a usable filter, the row has an entry. */
  ghost predicate RowMatches(db: DB, row: bytes, filter: Option<Filter>) {
    if filter.Some? && Build(filter.value).Some? then Kept(filter.value, RowCells(db, row)) != []
    else ScanKeys(db, RowKeyBounds(row), false) != []
  }

  /** A stored table's cells of a row whose family has at most 254 bytes, with their values, in key
      order. */
  ghost predicate AreRowCells(cells: Row, t: Table, row: bytes) {
    && (forall k :: 0 <= k < |cells| ==> cells[k].cell in t && cells[k].value == t[cells[k].cell])
    && (forall c :: c in t ==> (Occurs(cells, c) <==> c.row == row && |c.family| <= 254))
    && InCellOrder(cells, false)
  }

  lemma RowCellsExact(t: Table, row: bytes)
    requires ValidTable(t)
    ensures AreRowCells(RowCells(EncodeTable(t), row), t, row)
  {
    hide CellKey, Within, CellLess, ScanKeys, Cells, EncodeTable, RowKeyBounds, InCellOrder;
    ScanListsTable(t, RowKeyBounds(row), false);
    forall c | c in t ensures Within(CellKey(c), RowKeyBounds(row)) <==> c.row == row && |c.family| <= 254 {
      RowKeyBoundsExact(c, row);
    }
  }

  /** There is only one such list. */
  lemma RowCellsUnique(a: Row, b: Row, t: Table, row: bytes)
    requires ValidTable(t) && AreRowCells(a, t, row) && AreRowCells(b, t, row)
    ensures a == b
  {
    hide AreRowCells;
    SameBeginning(a, b, t, row, |a|);
    SameBeginning(b, a, t, row, |b|);
  }

  lemma {:induction false} SameBeginning(a: Row, b: Row, t: Table, row: bytes, n: nat)
    requires ValidTable(t) && AreRowCells(a, t, row) && AreRowCells(b, t, row) && n <= |a|
    ensures n <= |b| && a[..n] == b[..n]
  {
    hide AreRowCells, ValidTable;
    if n > 0 {
      SameBeginning(a, b, t, row, n - 1);
      SameNext(a, b, t, row, n - 1);
      assert a[..n] == a[..n - 1] + [a[n - 1]] && b[..n] == b[..n - 1] + [b[n - 1]];
    }
  }

  lemma SameNext(a: Row, b: Row, t: Table, row: bytes, n: nat)
    requires ValidTable(t) && AreRowCells(a, t, row) && AreRowCells(b, t, row)
    requires n < |a| && n <= |b| && a[..n] == b[..n]
    ensures n < |b| && b[n] == a[n]
  {
    hide AreRowCells, CellKey, Less;
    var k := NextPlace(a, b, t, row, n);
    if k > n {
      var j := NextPlace(b, a, t, row, n);
      Ordered(a, t, row, n, j);
      Ordered(b, t, row, n, k);
      LessAsymmetric(CellKey(b[n].cell), CellKey(b[k].cell));
    }
  }

  lemma Ordered(cells: Row, t: Table, row: bytes, i: nat, j: nat)
    requires ValidTable(t) && AreRowCells(cells, t, row) && i <= j < |cells|
    ensures i < j ==> Less(CellKey(cells[i].cell), CellKey(cells[j].cell))
  {
    hide CellKey, CellLess, Occurs;
    OrderEmbedding(cells[i].cell, cells[j].cell);
  }

  /** After a common beginning, the next cell of one list lies in the rest of the other. */
  lemma NextPlace(a: Row, b: Row, t: Table, row: bytes, n: nat) returns (k: nat)
    requires ValidTable(t) && AreRowCells(a, t, row) && AreRowCells(b, t, row)
    requires n < |a| && n <= |b| && a[..n] == b[..n]
    ensures n <= k < |b| && b[k] == a[n]
  {
    hide CellKey, CellLess, InCellOrder;
    assert Occurs(a, a[n].cell);
    k :| 0 <= k < |b| && b[k].cell == a[n].cell;
    if k < n {
      assert a[k] == a[..n][k] == b[..n][k] == b[k];
      Ordered(a, t, row, k, n);
      LessIrreflexive(CellKey(a[n].cell));
      assert false;
    }
  }

  /** With a stored table: the predicate is the filter's meaning on the row's cells; without a usable
      filter, whether the row has such a cell. */
  lemma MatchesMeans(t: Table, row: bytes, filter: Option<Filter>, cells: Row)
    requires ValidTable(t) && AreRowCells(cells, t, row)
    ensures RowMatches(EncodeTable(t), row, filter) <==>
      if filter.Some? && Build(filter.value).Some? then Kept(filter.value, cells) != []
      else exists c :: c in t && c.row == row && |c.family| <= 254
  {
    hide Kept, Build, EncodeTable, ScanKeys, Cells, InCellOrder, Occurs;
    RowCellsExact(t, row);
    RowCellsUnique(cells, RowCells(EncodeTable(t), row), t, row);
    EntriesMean(t, row);
  }

  lemma EntriesMean(t: Table, row: bytes)
    requires ValidTable(t)
    ensures ScanKeys(EncodeTable(t), RowKeyBounds(row), false) != []
       <==> exists c :: c in t && c.row == row && |c.family| <= 254
  {
    hide CellKey, Within, EncodeTable, RowKeyBounds;
    var db := EncodeTable(t);
    var ks := ScanKeys(db, RowKeyBounds(row), false);
    if c :| c in t && c.row == row && |c.family| <= 254 {
      RowKeyBoundsExact(c, row);
      assert CellKey(c) in ks;
    }
    if ks != [] {
      assert ks[0] in ks;
      RowKeyBoundsExact(Decoded(ks[0]).value, row);
      assert Decoded(ks[0]).value in t;
    }
  }

  lemma {:induction false} KeptGrows(f: Filter, row: Row, n: nat)
    requires Build(f).Some? && n <= |row|
    ensures Kept(f, row[..n]) <= Kept(f, row)
    decreases |row|
  {
    hide Kept, Step, After;
    if n < |row| {
      var k := |row| - 1;
      assert row[..k][..n] == row[..n] && row == row[..k] + [row[k]];
      KeptGrows(f, row[..k], n);
      EmittedSnoc(f, row[..k], row[k]);
    } else {
      assert row[..n] == row;
    }
  }

  /** The evaluator has seen the first j entries of a row, and none of them passed. */
  ghost predicate Unmatched(db: DB, ks: seq<bytes>, j: nat, filter: Filter, eval: Evaluator)
    requires Build(filter).Some? && j <= |ks|
  {
    Kept(filter, Cells(db, ks[..j])) == [] && eval == After(Build(filter).value, Cells(db, ks[..j]))
  }

  lemma UnmatchedCell(db: DB, ks: seq<bytes>, j: nat, filter: Filter, eval: Evaluator, c: CellInfo)
    requires Build(filter).Some? && j < |ks| && Unmatched(db, ks, j, filter, eval) && CellUnder(db, ks[j]) == [c]
    ensures if Step(eval, c).1 then Kept(filter, Cells(db, ks)) != [] else Unmatched(db, ks, j + 1, filter, Step(eval, c).0)
  {
    hide Kept, Step, After, Cells, Build, CellUnder, Group, AddCell;
    var before, next := Cells(db, ks[..j]), Cells(db, ks[..j + 1]);
    GroupEntry(db, ks, j);
    EmittedSnoc(filter, before, c);
    VerdictsSnoc(Build(filter).value, before, c);
    if Step(eval, c).1 {
      CellsGrow(db, ks, j + 1);
      assert Cells(db, ks)[..|next|] == next;
      KeptGrows(filter, Cells(db, ks), |next|);
      assert [c] <= Kept(filter, Cells(db, ks));
    }
  }

  lemma UnmatchedSkip(db: DB, ks: seq<bytes>, j: nat, filter: Filter, eval: Evaluator)
    requires Build(filter).Some? && j < |ks| && Unmatched(db, ks, j, filter, eval) && CellUnder(db, ks[j]) == []
    ensures Unmatched(db, ks, j + 1, filter, eval)
  {
    hide Kept, After, Cells, Build, CellUnder, Group, AddCell;
    GroupEntry(db, ks, j);
    assert Cells(db, ks[..j]) + [] == Cells(db, ks[..j]);
  }

  /** hasMatch: stops at the first cell that the filter keeps. */
  method HasMatch(db: DB, row: bytes, filter: Filter) returns (b: bool)
    requires Build(filter).Some?
    ensures b <==> Kept(filter, RowCells(db, row)) != []
  {
    var ks := ScanKeys(db, RowKeyBounds(row), false);
    var eval := Reset(Build(filter).value);
    BuiltIsReset(filter);
    var dec := new CellDecoder();
    NothingSeen(db, ks, filter);
    hide Kept, Step, Cells, Build, Unmatched, Reset, ScanKeys, RowKeyBounds;
    for j := 0 to |ks|
      invariant Unmatched(db, ks, j, filter, eval)
    {
      var r := dec.Decode(ks[j]);
      if r.Some? {
        var c := CellInfo(r.value, db[ks[j]]);
        UnmatchedCell(db, ks, j, filter, eval, c);
        var (next, verdict) := Step(eval, c);
        if verdict { return true; }
        eval := next;
      } else {
        UnmatchedSkip(db, ks, j, filter, eval);
      }
    }
    AllUnmatched(db, ks, filter, eval);
    return false;
  }

  lemma NothingSeen(db: DB, ks: seq<bytes>, filter: Filter)
    requires Build(filter).Some?
    ensures Unmatched(db, ks, 0, filter, Build(filter).value)
  {
    hide Kept, After, Cells, Build;
    assert ks[..0] == [];
    NoneKept(db, filter);
  }

  lemma AllUnmatched(db: DB, ks: seq<bytes>, filter: Filter, eval: Evaluator)
    requires Build(filter).Some? && Unmatched(db, ks, |ks|, filter, eval)
    ensures Kept(filter, Cells(db, ks)) == []
  {
    assert ks[..|ks|] == ks;
  }

  lemma NoneKept(db: DB, f: Filter)
    requires Build(f).Some?
    ensures Kept(f, Cells(db, [])) == [] && After(Build(f).value, Cells(db, [])) == Build(f).value
  {
  }

  method RowHasCells(db: DB, row: bytes, filter: Option<Filter>) returns (b: bool)
    ensures b <==> RowMatches(db, row, filter)
  {
    if filter.Some? && Build(filter.value).Some? {
      b := HasMatch(db, row, filter.value);
    } else {
      b := ScanKeys(db, RowKeyBounds(row), false) != [];
    }
  }

  /** The request applies one of the two mutation lists, chosen by the filter's meaning on the
      row before the request, or nothing at all. */
  method CheckAndMutateRow(s: TableServer, row: bytes, filter: Option<Filter>, onTrue: seq<Mutation>, onFalse: seq<Mutation>,
                           clock: seq<int>, applied: bool)
    returns (matched: bool, err: Option<Status>)
    requires |clock| == if RowMatches(s.db, row, filter) then |onTrue| else |onFalse|
    modifies s
    ensures row == [] ==> err == Some(InvalidArgument)
    ensures row != [] ==>
      var muts := if RowMatches(old(s.db), row, filter) then onTrue else onFalse;
      && matched == RowMatches(old(s.db), row, filter)
      && err == (if BatchOps(row, muts, clock).1.Some? then BatchOps(row, muts, clock).1
                 else if muts != [] && !applied then Some(Internal) else None)
      && (err.None? ==> s.db == ApplyOps(old(s.db), BatchOps(row, muts, clock).0))
    ensures err.Some? ==> s.db == old(s.db)
  {
    if row == [] { return false, Some(InvalidArgument); }
    matched := RowHasCells(s.db, row, filter);
    var muts := if matched then onTrue else onFalse;
    if |muts| == 0 { return matched, None; }
    var batch := new Batch();
    err := ApplyMutationsToBatch(batch, row, muts, clock);
    if err.Some? { return; }
    if !applied { return matched, Some(Internal); }
    assert batch.ops == BatchOps(row, muts, clock).0;
    s.db := ApplyOps(s.db, batch.ops);
  }
}
