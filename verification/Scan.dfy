/** What a scan visits (pkg/bigtable/readrows.go): the entries of its ranges, the cells they hold, and
    the rows these make up; and what that is for a stored table. */
module Scan {
  import opened Bytes
  import opened Encoding
  import opened Decoding
  import opened Bounds
  import opened Pebble
  import opened Table
  import opened Filter

  /* ---- What a scan visits ---- */

  /** The whole table, or the requested rows and then the requested row ranges. */
  function ScanRanges(rowKeys: seq<bytes>, rowRanges: seq<RowRange>): seq<KeyRange> {
    if rowKeys == [] && rowRanges == [] then [KeyRange(None, None)]
    else
      var rows := seq(|rowKeys|, i requires 0 <= i < |rowKeys| => RowKeyBounds(rowKeys[i]));
      var ranges := seq(|rowRanges|, i requires 0 <= i < |rowRanges| => RowRangeBounds(rowRanges[i]));
      rows + ranges
  }

  function Reverse(ks: seq<bytes>): (r: seq<bytes>)
    ensures |r| == |ks| && forall i :: 0 <= i < |ks| ==> r[i] == ks[|ks| - 1 - i]
  {
    seq(|ks|, i requires 0 <= i < |ks| => ks[|ks| - 1 - i])
  }

  function ScanKeys(db: DB, r: KeyRange, reversed: bool): (ks: seq<bytes>)
    ensures forall i :: 0 <= i < |ks| ==> ks[i] in db
  {
    var ks := Iterate(db, r);
    assert forall i :: 0 <= i < |ks| ==> ks[i] in ks;
    if reversed then Reverse(ks) else ks
  }

  /** The cells of the visited entries; entries that are no cell are skipped. */
  ghost function Cells(db: DB, ks: seq<bytes>): Row
    decreases |ks|
  {
    if ks == [] then [] else Cells(db, ks[..|ks| - 1]) + CellUnder(db, ks[|ks| - 1])
  }

  /** The cell stored under a key, if the key is a cell's. */
  ghost function CellUnder(db: DB, k: bytes): Row {
    if Decoded(k).Some? && k in db then [CellInfo(Decoded(k).value, db[k])] else []
  }

  /** Maximal runs of cells of one row. */
  function Group(cells: Row): (rows: seq<Row>)
    ensures NonEmpty(rows) && (cells == [] <==> rows == [])
    decreases |cells|
  {
    if cells == [] then []
    else
      AddCell(Group(cells[..|cells| - 1]), cells[|cells| - 1])
  }

  ghost predicate NonEmpty(rows: seq<Row>) { forall i :: 0 <= i < |rows| ==> rows[i] != [] }

  /** A cell extends the last row, or starts the next one. */
  function AddCell(rows: seq<Row>, c: CellInfo): (r: seq<Row>)
    requires NonEmpty(rows)
    ensures NonEmpty(r) && r != []
  {
    if rows != [] && RowOf(rows[|rows| - 1]) == c.cell.row
    then rows[..|rows| - 1] + [rows[|rows| - 1] + [c]]
    else rows + [[c]]
  }

  function RowOf(row: Row): bytes
    requires row != []
  {
    row[|row| - 1].cell.row
  }

  /* ---- What a scan of a stored table visits ---- */

  ghost predicate IsStoredCell(db: DB, k: bytes) { Decoded(k).Some? && k in db }

  ghost predicate AllStored(db: DB, ks: seq<bytes>) { forall j :: 0 <= j < |ks| ==> IsStoredCell(db, ks[j]) }

  lemma AllStoredPrefix(db: DB, ks: seq<bytes>, n: nat)
    requires AllStored(db, ks) && n <= |ks|
    ensures AllStored(db, ks[..n])
  {
    hide IsStoredCell;
  }

  lemma {:induction false} NoneSkipped(db: DB, ks: seq<bytes>)
    requires AllStored(db, ks)
    ensures |Cells(db, ks)| == |ks|
    decreases |ks|
  {
    if ks != [] {
      var n := |ks| - 1;
      assert |CellUnder(db, ks[n])| == 1;
      AllStoredPrefix(db, ks, n);
      hide CellUnder, IsStoredCell, AllStored, Cells;
      NoneSkipped(db, ks[..n]);
      CellsSnoc(db, ks);
    }
  }

  lemma CellAt(db: DB, ks: seq<bytes>, i: nat)
    requires AllStored(db, ks) && i < |ks|
    ensures i < |Cells(db, ks)| && |CellUnder(db, ks[i])| == 1 && Cells(db, ks)[i] == CellUnder(db, ks[i])[0]
  {
    assert |CellUnder(db, ks[i])| == 1;
    hide CellUnder, IsStoredCell, Cells;
    NoneSkipped(db, ks);
    AllStoredPrefix(db, ks, i);
    NoneSkipped(db, ks[..i]);
    CellsGrow(db, ks, i + 1);
    CellsSnoc(db, ks[..i + 1]);
    assert ks[..i + 1][..i] == ks[..i];
  }

  lemma CellsSnoc(db: DB, ks: seq<bytes>)
    requires ks != []
    ensures Cells(db, ks) == Cells(db, ks[..|ks| - 1]) + CellUnder(db, ks[|ks| - 1])
  {
  }

  /** The table's cells whose keys lie in the range, with their values. */
  ghost predicate Lists(cells: Row, t: Table, r: KeyRange) {
    && (forall i :: 0 <= i < |cells| ==> cells[i].cell in t && cells[i].value == t[cells[i].cell] && Within(CellKey(cells[i].cell), r))
    && (forall c :: c in t && Within(CellKey(c), r) ==> exists i :: 0 <= i < |cells| && cells[i].cell == c)
  }

  ghost predicate InCellOrder(cells: Row, reversed: bool) {
    forall i, j :: 0 <= i < j < |cells| ==>
      if reversed then CellLess(cells[j].cell, cells[i].cell) else CellLess(cells[i].cell, cells[j].cell)
  }

  /** Position i of a scan is position At(i) of the ascending keys. */
  function At(i: int, n: nat, reversed: bool): int { if reversed then n - 1 - i else i }

  lemma ScanKeyAt(db: DB, r: KeyRange, reversed: bool, i: nat)
    requires i < |Iterate(db, r)|
    ensures var up, ks := Iterate(db, r), ScanKeys(db, r, reversed);
      |ks| == |up| && ks[i] == up[At(i, |up|, reversed)] && ks[i] in up
  {
  }

  /** A range of a stored table lists exactly the table's cells whose keys lie in the range, in
      cell order; a reversed scan lists them backwards. */
  lemma ScanListsTable(t: Table, r: KeyRange, reversed: bool)
    requires ValidTable(t)
    ensures var db := EncodeTable(t);
      var cells := Cells(db, ScanKeys(db, r, reversed));
      Lists(cells, t, r) && InCellOrder(cells, reversed)
  {
    hide CellKey, Within, CellLess, ScanKeys, Cells, Iterate, EncodeTable;
    var db := EncodeTable(t);
    var up, ks := Iterate(db, r), ScanKeys(db, r, reversed);
    forall i | 0 <= i < |up|
      ensures |ks| == |up| && ks[i] == up[At(i, |up|, reversed)] && ks[i] in up
    {
      ScanKeyAt(db, r, reversed, i);
    }
    ScanSize(db, r, reversed);
    assert AllStored(db, ks);
    var cells := Cells(db, ks);
    NoneSkipped(db, ks);
    forall i | 0 <= i < |ks| ensures cells[i] == CellInfo(Decoded(ks[i]).value, db[ks[i]]) { CellAt(db, ks, i); }
    forall c | c in t && Within(CellKey(c), r) ensures exists i :: 0 <= i < |cells| && cells[i].cell == c {
      var i :| 0 <= i < |up| && up[i] == CellKey(c);
      DecodeEncode(c);
      assert cells[At(i, |up|, reversed)].cell == c;
    }
    assert Lists(cells, t, r);
    forall i, j | 0 <= i < j < |cells|
      ensures if reversed then CellLess(cells[j].cell, cells[i].cell) else CellLess(cells[i].cell, cells[j].cell)
    {
      OrderEmbedding(cells[i].cell, cells[j].cell);
      OrderEmbedding(cells[j].cell, cells[i].cell);
    }
  }

  lemma ScanSize(db: DB, r: KeyRange, reversed: bool)
    ensures |ScanKeys(db, r, reversed)| == |Iterate(db, r)|
  {
  }

  /** Equal row keys lie next to each other. */
  ghost predicate Contiguous(cells: Row) {
    forall i, j, k :: 0 <= i < j < k < |cells| && cells[i].cell.row == cells[k].cell.row ==> cells[j].cell.row == cells[i].cell.row
  }

  lemma ScansAreContiguous(cells: Row, reversed: bool)
    requires InCellOrder(cells, reversed)
    ensures Contiguous(cells)
  {
    forall i, j, k | 0 <= i < j < k < |cells| && cells[i].cell.row == cells[k].cell.row
      ensures cells[j].cell.row == cells[i].cell.row
    {
      var a, b := cells[i].cell, cells[j].cell;
      RowsInOrder(a, b, reversed);
      RowsInOrder(b, cells[k].cell, reversed);
      if Less(a.row, b.row) { LessAsymmetric(a.row, b.row); }
      if Less(b.row, a.row) { LessAsymmetric(b.row, a.row); }
    }
  }

  lemma RowsInOrder(a: Cell, b: Cell, reversed: bool)
    requires if reversed then CellLess(b, a) else CellLess(a, b)
    ensures a.row == b.row || if reversed then Less(b.row, a.row) else Less(a.row, b.row)
  {
  }

  ghost predicate OneRow(row: Row) { row != [] && forall k :: 0 <= k < |row| ==> row[k].cell.row == RowOf(row) }

  /** Every visit holds cells of one row, and no row is visited twice. */
  ghost predicate RowByRow(rows: seq<Row>) {
    && (forall i :: 0 <= i < |rows| ==> OneRow(rows[i]))
    && (forall i, j :: 0 <= i < j < |rows| ==> RowOf(rows[i]) != RowOf(rows[j]))
  }

  lemma AddCellRowByRow(rows: seq<Row>, c: CellInfo)
    requires RowByRow(rows) && forall i :: 0 <= i < |rows| - 1 ==> RowOf(rows[i]) != c.cell.row
    ensures NonEmpty(rows) && RowByRow(AddCell(rows, c))
    ensures AddCell(rows, c) != [] && RowOf(AddCell(rows, c)[|AddCell(rows, c)| - 1]) == c.cell.row
  {
    var r := AddCell(rows, c);
    if rows != [] && RowOf(rows[|rows| - 1]) == c.cell.row { assert OneRow(rows[|rows| - 1] + [c]); } else { assert OneRow([c]); }
  }

  /** Every row visited is the row of some cell. */
  lemma {:induction false} VisitedRowsOccur(cells: Row, i: nat) returns (a: nat)
    requires i < |Group(cells)|
    ensures a < |cells| && cells[a].cell.row == RowOf(Group(cells)[i])
    decreases |cells|
  {
    hide RowOf, AddCell;
    var n := |cells| - 1;
    var g := Group(cells[..n]);
    AddCellRows(g, cells[n]);
    if i < |Group(cells)| - 1 { a := VisitedRowsOccur(cells[..n], i); } else { a := n; }
  }

  /** A scan of contiguous cells visits each row once. */
  lemma {:induction false} OneVisitPerRow(cells: Row)
    requires Contiguous(cells)
    ensures RowByRow(Group(cells))
    decreases |cells|
  {
    if cells != [] {
      hide RowByRow, RowOf, AddCell, Group;
      var n := |cells| - 1;
      var init, c, g := cells[..n], cells[n], Group(cells[..n]);
      assert Contiguous(init);
      OneVisitPerRow(init);
      forall i | 0 <= i < |g| - 1 ensures RowOf(g[i]) != c.cell.row {
        var a := VisitedRowsOccur(init, i);
        RowByRowDistinct(g, i, |g| - 1);
        LastRowIsLast(init);
        assert cells[a] == init[a] && cells[n - 1] == init[n - 1];
      }
      AddCellRowByRow(g, c);
      GroupSnoc(cells);
    }
  }

  function Concat(rows: seq<Row>): Row
    decreases |rows|
  {
    if rows == [] then [] else Concat(rows[..|rows| - 1]) + rows[|rows| - 1]
  }

  /** Grouping drops, repeats and reorders nothing. */
  lemma {:induction false} GroupConcat(cells: Row)
    ensures Concat(Group(cells)) == cells
    decreases |cells|
  {
    if cells != [] {
      hide AddCell, Concat;
      var n := |cells| - 1;
      GroupConcat(cells[..n]);
      AddCellConcat(Group(cells[..n]), cells[n]);
    } else {
      assert Concat([]) == [];
    }
  }

  lemma AddCellConcat(rows: seq<Row>, c: CellInfo)
    requires NonEmpty(rows)
    ensures Concat(AddCell(rows, c)) == Concat(rows) + [c]
  {
    var r := AddCell(rows, c);
    if rows != [] && RowOf(rows[|rows| - 1]) == c.cell.row {
      var k := |rows| - 1;
      assert r[..k] == rows[..k];
      assert Concat(rows[..k]) + (rows[k] + [c]) == Concat(rows[..k]) + rows[k] + [c];
    } else {
      assert r[..|rows|] == rows;
    }
  }

  /** A visit is a stretch of the scan. */
  lemma {:induction false} VisitAt(rows: seq<Row>, i: nat) returns (from: nat)
    requires i < |rows|
    ensures from + |rows[i]| <= |Concat(rows)| && Concat(rows)[from..from + |rows[i]|] == rows[i]
    decreases |rows|
  {
    var n := |rows| - 1;
    if i < n {
      from := VisitAt(rows[..n], i);
      assert Concat(rows)[from..from + |rows[i]|] == Concat(rows[..n])[from..from + |rows[i]|];
    } else {
      from := |Concat(rows[..n])|;
    }
  }

  /** Every scanned cell is in a visit. */
  lemma {:induction false} VisitOf(rows: seq<Row>, a: nat) returns (i: nat, k: nat)
    requires a < |Concat(rows)|
    ensures i < |rows| && k < |rows[i]| && rows[i][k] == Concat(rows)[a]
    decreases |rows|
  {
    var n := |rows| - 1;
    if a < |Concat(rows[..n])| {
      i, k := VisitOf(rows[..n], a);
    } else {
      i, k := n, a - |Concat(rows[..n])|;
    }
  }

  ghost predicate CellsIn(v: Row, t: Table, r: KeyRange) {
    forall k :: 0 <= k < |v| ==> v[k].cell in t && v[k].value == t[v[k].cell] && Within(CellKey(v[k].cell), r)
  }

  ghost predicate Occurs(v: Row, c: Cell) { exists k :: 0 <= k < |v| && v[k].cell == c }

  /** A visit holds exactly the cells of its row that the range reaches, with their values, in order. */
  ghost predicate IsVisit(v: Row, t: Table, r: KeyRange, reversed: bool) {
    && OneRow(v) && InCellOrder(v, reversed) && CellsIn(v, t, r)
    && forall c :: c in t && c.row == RowOf(v) && Within(CellKey(c), r) ==> Occurs(v, c)
  }

  ghost predicate Visited(rows: seq<Row>, key: bytes)
    requires NonEmpty(rows)
  {
    exists i :: 0 <= i < |rows| && RowOf(rows[i]) == key
  }

  /** Each row that has a cell in the range is visited, once, with exactly its cells in the range. */
  ghost predicate AreRows(rows: seq<Row>, t: Table, r: KeyRange, reversed: bool)
    requires NonEmpty(rows)
  {
    && RowByRow(rows)
    && (forall i :: 0 <= i < |rows| ==> IsVisit(rows[i], t, r, reversed))
    && (forall c :: c in t && Within(CellKey(c), r) ==> Visited(rows, c.row))
  }

  lemma VisitsAreRows(t: Table, r: KeyRange, reversed: bool)
    requires ValidTable(t)
    ensures var db := EncodeTable(t); AreRows(Group(Cells(db, ScanKeys(db, r, reversed))), t, r, reversed)
  {
    hide CellKey, Within, CellLess, ScanKeys, Cells, EncodeTable, Group, AreRows;
    ScanListsTable(t, r, reversed);
    ListedRows(Cells(EncodeTable(t), ScanKeys(EncodeTable(t), r, reversed)), t, r, reversed);
  }

  lemma ListedRows(cells: Row, t: Table, r: KeyRange, reversed: bool)
    requires Lists(cells, t, r) && InCellOrder(cells, reversed)
    ensures AreRows(Group(cells), t, r, reversed)
  {
    hide CellKey, Within, CellLess, Group, Concat, RowByRow, IsVisit, RowOf;
    var rows := Group(cells);
    ScansAreContiguous(cells, reversed);
    OneVisitPerRow(cells);
    GroupConcat(cells);
    forall c | c in t && Within(CellKey(c), r) ensures Visited(rows, c.row) {
      var i := VisitHolding(cells, rows, t, r, c);
    }
    forall i | 0 <= i < |rows| ensures IsVisit(rows[i], t, r, reversed) {
      ListedVisit(cells, rows, i, t, r, reversed);
    }
  }

  lemma VisitHolding(cells: Row, rows: seq<Row>, t: Table, r: KeyRange, c: Cell) returns (i: nat)
    requires Lists(cells, t, r) && RowByRow(rows) && Concat(rows) == cells && c in t && Within(CellKey(c), r)
    ensures NonEmpty(rows) && i < |rows| && RowOf(rows[i]) == c.row && Occurs(rows[i], c)
  {
    hide CellKey, Within, Concat;
    var a :| 0 <= a < |cells| && cells[a].cell == c;
    var k;
    i, k := VisitOf(rows, a);
    assert OneRow(rows[i]) && rows[i][k].cell == c;
  }

  lemma ListedVisit(cells: Row, rows: seq<Row>, i: nat, t: Table, r: KeyRange, reversed: bool)
    requires Lists(cells, t, r) && InCellOrder(cells, reversed) && RowByRow(rows) && Concat(rows) == cells && i < |rows|
    ensures IsVisit(rows[i], t, r, reversed)
  {
    hide CellKey, Within, CellLess, Concat, Lists, InCellOrder, CellsIn, Occurs;
    assert OneRow(rows[i]);
    var from := VisitAt(rows, i);
    StretchIsVisit(cells, rows[i], from, t, r, reversed);
    forall c | c in t && c.row == RowOf(rows[i]) && Within(CellKey(c), r) ensures Occurs(rows[i], c) {
      var j := VisitHolding(cells, rows, t, r, c);
      assert i == j;
    }
  }

  lemma StretchIsVisit(cells: Row, v: Row, from: nat, t: Table, r: KeyRange, reversed: bool)
    requires Lists(cells, t, r) && InCellOrder(cells, reversed) && from + |v| <= |cells| && cells[from..from + |v|] == v
    ensures InCellOrder(v, reversed) && CellsIn(v, t, r)
  {
    hide CellKey, Within, CellLess;
    assert forall k :: 0 <= k < |v| ==> v[k] == cells[from + k];
  }

  ghost predicate Reaches(t: Table, key: bytes, r: RowRange) { exists c :: c in t && c.row == key && Meets(c, r) }

  /** For a row range: exactly the rows with a cell that it meets are visited, and a visit holds
      exactly those cells of its row. */
  lemma VisitsOfRowRange(t: Table, r: RowRange, reversed: bool, key: bytes)
    requires ValidTable(t)
    ensures var db := EncodeTable(t);
      var rows := Group(Cells(db, ScanKeys(db, RowRangeBounds(r), reversed)));
      && (Visited(rows, key) <==> Reaches(t, key, r))
      && (forall i, c :: 0 <= i < |rows| && c in t && c.row == RowOf(rows[i]) ==> (Occurs(rows[i], c) <==> Meets(c, r)))
  {
    hide CellKey, Within, ScanKeys, Cells, EncodeTable, Group, Meets, RowRangeBounds, InCellOrder, RowOf, RowByRow;
    var kr := RowRangeBounds(r);
    var rows := Group(Cells(EncodeTable(t), ScanKeys(EncodeTable(t), kr, reversed)));
    VisitsAreRows(t, kr, reversed);
    forall c | c in t ensures Within(CellKey(c), kr) <==> Meets(c, r) { RowRangeExact(c, r); }
    if Visited(rows, key) {
      var i :| 0 <= i < |rows| && RowOf(rows[i]) == key;
      VisitedCell(rows[i], t, kr, reversed);
      assert rows[i][0].cell in t;
    }
  }

  lemma VisitedCell(v: Row, t: Table, r: KeyRange, reversed: bool)
    requires IsVisit(v, t, r, reversed)
    ensures v != [] && v[0].cell in t && v[0].cell.row == RowOf(v) && Within(CellKey(v[0].cell), r)
  {
    hide CellKey, Within;
  }

  lemma GroupSnoc(cells: Row)
    requires cells != []
    ensures Group(cells) == AddCell(Group(cells[..|cells| - 1]), cells[|cells| - 1])
  {
  }

  lemma LastRowIsLast(cells: Row)
    requires cells != []
    ensures var g := Group(cells); RowOf(g[|g| - 1]) == cells[|cells| - 1].cell.row
  {
    hide Group;
    GroupSnoc(cells);
  }

  lemma RowByRowDistinct(rows: seq<Row>, i: nat, j: nat)
    requires RowByRow(rows) && i < j < |rows|
    ensures RowOf(rows[i]) != RowOf(rows[j])
  {
  }

  lemma AddCellRows(rows: seq<Row>, c: CellInfo)
    requires NonEmpty(rows)
    ensures |rows| <= |AddCell(rows, c)| <= |rows| + 1
    ensures forall i :: 0 <= i < |AddCell(rows, c)| - 1 ==> AddCell(rows, c)[i] == rows[i]
    ensures RowOf(AddCell(rows, c)[|AddCell(rows, c)| - 1]) == c.cell.row
  {
  }

  /** A finished row stays what it is, whatever cells follow. */
  lemma {:induction false} GroupGrows(cells: Row, n: nat)
    requires n < |cells| && (n == 0 || RowOf(Group(cells[..n])[|Group(cells[..n])| - 1]) != cells[n].cell.row)
    ensures Group(cells[..n]) < Group(cells)
    decreases |cells|
  {
    hide AddCell;
    var k := |cells| - 1;
    var g := Group(cells[..n]);
    assert Group(cells) == AddCell(Group(cells[..k]), cells[k]);
    AddCellKeeps(Group(cells[..k]), cells[k], g);
    if n < k {
      assert cells[..k][..n] == cells[..n] && cells[..k][n] == cells[n];
      GroupGrows(cells[..k], n);
    }
  }

  lemma AddCellKeeps(rows: seq<Row>, c: CellInfo, g: seq<Row>)
    requires NonEmpty(rows)
    ensures g < rows ==> g < AddCell(rows, c)
    ensures rows == [] || RowOf(rows[|rows| - 1]) != c.cell.row ==> rows < AddCell(rows, c)
  {
  }

  /** More cells extend the last row or add rows. */
  lemma {:induction false} GroupExtends(cells: Row, n: nat)
    requires 0 < n <= |cells|
    ensures var g, h := Group(cells[..n]), Group(cells);
      0 < |g| <= |h| && g[..|g| - 1] == h[..|g| - 1] && g[|g| - 1] <= h[|g| - 1]
    decreases |cells|
  {
    if n < |cells| {
      assert cells[..|cells| - 1][..n] == cells[..n];
      GroupExtends(cells[..|cells| - 1], n);
    } else {
      assert cells[..n] == cells;
    }
  }

  /* ---- Entry by entry ---- */

  lemma ReadNothing(db: DB, ks: seq<bytes>)
    ensures Cells(db, ks[..0]) == [] && Group(Cells(db, ks[..0])) == []
  {
  }

  lemma ReadAll(db: DB, ks: seq<bytes>)
    ensures Cells(db, ks[..|ks|]) == Cells(db, ks)
  {
    assert ks[..|ks|] == ks;
  }

  lemma {:induction false} CellsGrow(db: DB, ks: seq<bytes>, j: nat)
    requires j <= |ks|
    ensures Cells(db, ks[..j]) <= Cells(db, ks)
    decreases |ks|
  {
    if j < |ks| {
      assert ks[..|ks| - 1][..j] == ks[..j];
      CellsGrow(db, ks[..|ks| - 1], j);
    } else {
      assert ks[..j] == ks;
    }
  }

  lemma GroupIsPrefix(db: DB, ks: seq<bytes>, j: nat)
    requires j < |ks| && ks[j] in db && Decoded(ks[j]).Some?
    requires var g := Group(Cells(db, ks[..j])); g == [] || RowOf(g[|g| - 1]) != Decoded(ks[j]).value.row
    ensures Group(Cells(db, ks[..j])) <= Group(Cells(db, ks))
  {
    var c := CellInfo(Decoded(ks[j]).value, db[ks[j]]);
    assert CellUnder(db, ks[j]) == [c];
    hide Group, Cells, CellUnder, Decoded;
    GroupEntry(db, ks, j);
    CellsGrow(db, ks, j + 1);
    GroupBeforeCell(Cells(db, ks[..j]), c, Cells(db, ks));
  }

  lemma GroupBeforeCell(before: Row, c: CellInfo, cells: Row)
    requires before + [c] <= cells
    requires var g := Group(before); g == [] || RowOf(g[|g| - 1]) != c.cell.row
    ensures Group(before) <= Group(cells)
  {
    hide Group;
    var n := |before|;
    assert (before + [c])[n] == c && (before + [c])[..n] == before;
    assert cells[n] == c && cells[..n] == before;
    GroupGrows(cells, n);
  }

  /** What one more entry does to the rows of a range. */
  lemma GroupEntry(db: DB, ks: seq<bytes>, j: nat)
    requires j < |ks|
    ensures var cells, next := Cells(db, ks[..j]), Cells(db, ks[..j + 1]);
      && next == cells + CellUnder(db, ks[j])
      && (CellUnder(db, ks[j]) != [] ==> Group(next) == AddCell(Group(cells), CellUnder(db, ks[j])[0]))
  {
    hide CellUnder, AddCell;
    assert ks[..j + 1][..j] == ks[..j];
    var cells, next := Cells(db, ks[..j]), Cells(db, ks[..j + 1]);
    CellUnderIsOne(db, ks[j]);
    if CellUnder(db, ks[j]) != [] {
      assert next[..|next| - 1] == cells;
    }
  }

  lemma CellUnderIsOne(db: DB, k: bytes)
    ensures |CellUnder(db, k)| <= 1
  {
  }

  /* ---- Ranges that start with the empty row ---- */

  /** The first cell of a range does not have the empty row key, which the loop takes for a row that
      it has already started. */
  ghost predicate StartsNamed(db: DB, ks: seq<bytes>) { Cells(db, ks) == [] || Cells(db, ks)[0].cell.row != [] }

  ghost predicate HasRow(t: Table, r: KeyRange, empty: bool) {
    exists c :: c in t && (c.row == [] <==> empty) && Within(CellKey(c), r)
  }

  /** In a stored table that is so exactly when the range has no cell of the empty row, or the scan
      is reversed and has another row. */
  lemma StartsNamedIff(t: Table, r: KeyRange, reversed: bool)
    requires ValidTable(t)
    ensures var db := EncodeTable(t);
      StartsNamed(db, ScanKeys(db, r, reversed)) <==> !HasRow(t, r, true) || (reversed && HasRow(t, r, false))
  {
    hide CellKey, Within, CellLess, ScanKeys, Cells, EncodeTable, HasRow;
    ScanListsTable(t, r, reversed);
    ListStartsNamed(Cells(EncodeTable(t), ScanKeys(EncodeTable(t), r, reversed)), t, r, reversed);
  }

  lemma ListStartsNamed(cells: Row, t: Table, r: KeyRange, reversed: bool)
    requires Lists(cells, t, r) && InCellOrder(cells, reversed)
    ensures cells == [] || cells[0].cell.row != [] <==> !HasRow(t, r, true) || (reversed && HasRow(t, r, false))
  {
    hide CellKey, Within, CellLess;
    if cells != [] { assert cells[0].cell in t; }
    if HasRow(t, r, true) {
      var c :| c in t && c.row == [] && Within(CellKey(c), r);
      var a :| 0 <= a < |cells| && cells[a].cell == c;
      if a > 0 { RowsInOrder(cells[0].cell, cells[a].cell, reversed); }
    }
    if HasRow(t, r, false) {
      var c :| c in t && c.row != [] && Within(CellKey(c), r);
      var a :| 0 <= a < |cells| && cells[a].cell == c;
      if a > 0 { RowsInOrder(cells[0].cell, cells[a].cell, reversed); }
    }
  }

}
