/** What a ReadRows request reads of a stored table (pkg/bigtable/readrows.go), said on the row set of
    the request: which cells, with which values, and in which order. */
module ScanRequest {
  import opened Bytes
  import opened Encoding
  import opened Bounds
  import opened Pebble
  import opened Table
  import opened Filter
  import opened Scan
  import opened Emission
  import opened ScanMeaning

  /** How many scans a request makes: one for each row and range of its row set, one of the whole
      table if it has neither. */
  function HowMany(rowKeys: seq<bytes>, rowRanges: seq<RowRange>): nat {
    if |rowKeys| + |rowRanges| == 0 then 1 else |rowKeys| + |rowRanges|
  }

  /** Scan i is to read this cell: everything; the cells of the i-th row, up to families of 255 bytes;
      or what the range meets. */
  predicate Asks(rowKeys: seq<bytes>, rowRanges: seq<RowRange>, i: nat, c: Cell)
    requires i < HowMany(rowKeys, rowRanges)
  {
    if |rowKeys| + |rowRanges| == 0 then true
    else if i < |rowKeys| then c.row == rowKeys[i] && |c.family| <= 254
    else Meets(c, rowRanges[i - |rowKeys|])
  }

  ghost predicate AskedFor(rowKeys: seq<bytes>, rowRanges: seq<RowRange>, c: Cell) {
    || (rowKeys == [] && rowRanges == [])
    || (c.row in rowKeys && |c.family| <= 254)
    || exists r :: r in rowRanges && Meets(c, r)
  }

  /** Exactly the table's cells that scan i is to read, with their values, in key order. */
  ghost predicate ReadsPart(cells: Row, t: Table, rowKeys: seq<bytes>, rowRanges: seq<RowRange>, i: nat, reversed: bool)
    requires i < HowMany(rowKeys, rowRanges)
  {
    && (forall k :: 0 <= k < |cells| ==> cells[k].cell in t && cells[k].value == t[cells[k].cell])
    && (forall c :: c in t ==> (Occurs(cells, c) <==> Asks(rowKeys, rowRanges, i, c)))
    && InCellOrder(cells, reversed)
  }

  ghost predicate ReadsParts(parts: seq<Row>, t: Table, rowKeys: seq<bytes>, rowRanges: seq<RowRange>, reversed: bool) {
    && |parts| == HowMany(rowKeys, rowRanges)
    && forall i :: 0 <= i < |parts| ==> ReadsPart(parts[i], t, rowKeys, rowRanges, i, reversed)
  }

  lemma RangeAsks(rowKeys: seq<bytes>, rowRanges: seq<RowRange>, i: nat, c: Cell)
    requires i < HowMany(rowKeys, rowRanges) && ValidCell(c)
    ensures |ScanRanges(rowKeys, rowRanges)| == HowMany(rowKeys, rowRanges)
    ensures Within(CellKey(c), ScanRanges(rowKeys, rowRanges)[i]) <==> Asks(rowKeys, rowRanges, i, c)
  {
    hide CellKey, Meets, RowRangeBounds, RowKeyBounds, Within;
    if |rowKeys| + |rowRanges| == 0 {
      EverythingWithin(CellKey(c));
    } else if i < |rowKeys| {
      RowKeyBoundsExact(c, rowKeys[i]);
    } else {
      RowRangeExact(c, rowRanges[i - |rowKeys|]);
    }
  }

  lemma EverythingWithin(k: bytes)
    ensures Within(k, KeyRange(None, None))
  {
  }

  /** The scans of a request's ranges, one after the other. */
  ghost function Scanned(db: DB, ranges: seq<KeyRange>, reversed: bool): (parts: seq<Row>)
    ensures |parts| == |ranges|
  {
    seq(|ranges|, i requires 0 <= i < |ranges| => Cells(db, ScanKeys(db, ranges[i], reversed)))
  }

  lemma PartIsRead(t: Table, rowKeys: seq<bytes>, rowRanges: seq<RowRange>, i: nat, reversed: bool)
    requires ValidTable(t) && i < HowMany(rowKeys, rowRanges)
    ensures |ScanRanges(rowKeys, rowRanges)| == HowMany(rowKeys, rowRanges)
    ensures var db := EncodeTable(t);
      ReadsPart(Cells(db, ScanKeys(db, ScanRanges(rowKeys, rowRanges)[i], reversed)), t, rowKeys, rowRanges, i, reversed)
  {
    hide CellKey, Within, CellLess, ScanKeys, Cells, EncodeTable, ScanRanges, Asks, HowMany;
    HowManyIs(rowKeys, rowRanges);
    var r := ScanRanges(rowKeys, rowRanges)[i];
    ScanListsTable(t, r, reversed);
    forall c | c in t ensures Within(CellKey(c), r) <==> Asks(rowKeys, rowRanges, i, c) {
      RangeAsks(rowKeys, rowRanges, i, c);
    }
  }

  lemma ConcatOne(rows: seq<Row>, row: Row)
    ensures Concat(rows + [row]) == Concat(rows) + row
  {
    assert (rows + [row])[..|rows|] == rows;
  }

  lemma {:induction false} ConcatJoin(a: seq<Row>, b: seq<Row>)
    ensures Concat(a + b) == Concat(a) + Concat(b)
    decreases |b|
  {
    if b == [] {
      assert a + b == a;
    } else {
      hide Concat;
      var init, last := b[..|b| - 1], b[|b| - 1];
      assert b == init + [last] && a + b == (a + init) + [last];
      ConcatJoin(a, init);
      ConcatOne(a + init, last);
      ConcatOne(init, last);
      assert Concat(a) + Concat(init) + last == Concat(a) + (Concat(init) + last);
    }
  }

  /** The visits of a request concatenate to its scans. */
  lemma {:induction false} VisitsConcat(db: DB, ranges: seq<KeyRange>, reversed: bool)
    ensures Concat(RowsOf(Visits(db, ranges, reversed))) == Concat(Scanned(db, ranges, reversed))
    decreases |ranges|
  {
    hide Cells, Group, ScanKeys, Concat;
    if ranges != [] {
      var n := |ranges| - 1;
      var before, last := Visits(db, ranges[..n], reversed), VisitsIn(db, ranges[n], reversed);
      var cells := Cells(db, ScanKeys(db, ranges[n], reversed));
      VisitsConcat(db, ranges[..n], reversed);
      assert RowsOf(before + last) == RowsOf(before) + RowsOf(last);
      ConcatJoin(RowsOf(before), RowsOf(last));
      assert RowsOf(last) == Group(cells);
      GroupConcat(cells);
      assert Scanned(db, ranges, reversed) == Scanned(db, ranges[..n], reversed) + [cells];
      ConcatOne(Scanned(db, ranges[..n], reversed), cells);
    } else {
      assert RowsOf([]) == Scanned(db, ranges, reversed);
    }
  }

  /** What a request visits is, in this order, its named rows and then its ranges, or the whole table
      if it names neither; of each exactly the stored cells, with their values, in key order. */
  lemma RequestReads(t: Table, rowKeys: seq<bytes>, rowRanges: seq<RowRange>, reversed: bool)
    requires ValidTable(t)
    ensures var vs := Visits(EncodeTable(t), ScanRanges(rowKeys, rowRanges), reversed);
      exists parts :: ReadsParts(parts, t, rowKeys, rowRanges, reversed) && Concat(RowsOf(vs)) == Concat(parts)
  {
    hide Cells, ScanKeys, Concat, ScanRanges, HowMany, EncodeTable, Visits, ReadsPart;
    var ranges := ScanRanges(rowKeys, rowRanges);
    var parts := Scanned(EncodeTable(t), ranges, reversed);
    VisitsConcat(EncodeTable(t), ranges, reversed);
    HowManyIs(rowKeys, rowRanges);
    forall i | 0 <= i < HowMany(rowKeys, rowRanges)
      ensures i < |parts| && ReadsPart(parts[i], t, rowKeys, rowRanges, i, reversed)
    {
      PartIsRead(t, rowKeys, rowRanges, i, reversed);
    }
    assert ReadsParts(parts, t, rowKeys, rowRanges, reversed);
  }

  lemma HowManyIs(rowKeys: seq<bytes>, rowRanges: seq<RowRange>)
    ensures |ScanRanges(rowKeys, rowRanges)| == HowMany(rowKeys, rowRanges)
  {
  }

  lemma {:induction false} OccursInConcat(parts: seq<Row>, c: Cell)
    ensures Occurs(Concat(parts), c) <==> exists i :: 0 <= i < |parts| && Occurs(parts[i], c)
    decreases |parts|
  {
    hide Occurs;
    if parts != [] {
      var n := |parts| - 1;
      OccursInConcat(parts[..n], c);
      OccursJoin(Concat(parts[..n]), parts[n], c);
      assert forall i :: 0 <= i < n ==> parts[..n][i] == parts[i];
    } else {
      OccursNowhere(c);
    }
  }

  lemma OccursNowhere(c: Cell)
    ensures !Occurs([], c)
  {
  }

  lemma OccursJoin(a: Row, b: Row, c: Cell)
    ensures Occurs(a + b, c) <==> Occurs(a, c) || Occurs(b, c)
  {
    if Occurs(a, c) {
      var k :| 0 <= k < |a| && a[k].cell == c;
      assert (a + b)[k].cell == c;
    }
    if Occurs(b, c) {
      var k :| 0 <= k < |b| && b[k].cell == c;
      assert (a + b)[|a| + k].cell == c;
    }
  }

  /** A stored cell is visited exactly if the request asks for it. */
  lemma RequestReadsIff(t: Table, rowKeys: seq<bytes>, rowRanges: seq<RowRange>, reversed: bool, c: Cell)
    requires ValidTable(t) && c in t
    ensures (exists v :: v in Visits(EncodeTable(t), ScanRanges(rowKeys, rowRanges), reversed) && Occurs(v.cells, c))
        <==> AskedFor(rowKeys, rowRanges, c)
  {
    hide Concat, ScanRanges, EncodeTable, Visits, Occurs, AskedFor, RowsOf, ReadsParts;
    RequestReads(t, rowKeys, rowRanges, reversed);
    var vs := Visits(EncodeTable(t), ScanRanges(rowKeys, rowRanges), reversed);
    var parts :| ReadsParts(parts, t, rowKeys, rowRanges, reversed) && Concat(RowsOf(vs)) == Concat(parts);
    VisitsHold(vs, c);
    PartsAnswer(parts, t, rowKeys, rowRanges, reversed, c);
  }

  lemma VisitsHold(vs: seq<Visit>, c: Cell)
    ensures (exists v :: v in vs && Occurs(v.cells, c)) <==> Occurs(Concat(RowsOf(vs)), c)
  {
    hide Concat, Occurs;
    OccursInConcat(RowsOf(vs), c);
    assert forall i :: 0 <= i < |vs| ==> vs[i] in vs && RowsOf(vs)[i] == vs[i].cells;
  }

  lemma PartsAnswer(parts: seq<Row>, t: Table, rowKeys: seq<bytes>, rowRanges: seq<RowRange>, reversed: bool, c: Cell)
    requires ReadsParts(parts, t, rowKeys, rowRanges, reversed) && c in t
    ensures Occurs(Concat(parts), c) <==> AskedFor(rowKeys, rowRanges, c)
  {
    hide Concat, Occurs, Meets, HowMany, Asks, AskedFor, ReadsParts;
    OccursInConcat(parts, c);
    PartsAsk(parts, t, rowKeys, rowRanges, reversed, c);
    AskedSomewhere(rowKeys, rowRanges, c);
  }

  lemma PartsAsk(parts: seq<Row>, t: Table, rowKeys: seq<bytes>, rowRanges: seq<RowRange>, reversed: bool, c: Cell)
    requires ReadsParts(parts, t, rowKeys, rowRanges, reversed) && c in t
    ensures |parts| == HowMany(rowKeys, rowRanges)
    ensures forall i :: 0 <= i < |parts| ==> (Occurs(parts[i], c) <==> Asks(rowKeys, rowRanges, i, c))
  {
    hide Asks, HowMany, Occurs, InCellOrder;
    assert forall i :: 0 <= i < |parts| ==> ReadsPart(parts[i], t, rowKeys, rowRanges, i, reversed);
  }

  lemma AskedSomewhere(rowKeys: seq<bytes>, rowRanges: seq<RowRange>, c: Cell)
    ensures AskedFor(rowKeys, rowRanges, c)
       <==> exists i :: 0 <= i < HowMany(rowKeys, rowRanges) && Asks(rowKeys, rowRanges, i, c)
  {
    hide Meets;
    if AskedFor(rowKeys, rowRanges, c) {
      if rowKeys == [] && rowRanges == [] {
        assert Asks(rowKeys, rowRanges, 0, c);
      } else if c.row in rowKeys && |c.family| <= 254 {
        var i :| 0 <= i < |rowKeys| && rowKeys[i] == c.row;
        assert Asks(rowKeys, rowRanges, i, c);
      } else {
        var r :| r in rowRanges && Meets(c, r);
        var i :| 0 <= i < |rowRanges| && rowRanges[i] == r;
        assert Asks(rowKeys, rowRanges, |rowKeys| + i, c);
      }
    }
  }
}
