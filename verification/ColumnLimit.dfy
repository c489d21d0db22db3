/** The per-column limit (pkg/bigtable/filter.go) counts under the string family, 0x00, qualifier.
    When that counts columns, and when it does not. */
module ColumnLimit {
  import opened Bytes
  import opened Encoding
  import opened Filter
  import opened FilterMeaning

  predicate SameColumn(c: Cell, d: Cell) { c.family == d.family && c.qualifier == d.qualifier }

  /** The family g is f, a null byte and anything. */
  predicate Extends(f: bytes, g: bytes) { f + [0] <= g }

  ghost predicate Collide(f: bytes, q: bytes, g: bytes, r: bytes) { f + [0] + q == g + [0] + r }

  /** Two families can share a counting key exactly when one extends the other by a null byte. */
  lemma KeysCollideIff(f: bytes, g: bytes)
    requires f != g
    ensures (exists q, r :: Collide(f, q, g, r)) <==> Extends(f, g) || Extends(g, f)
  {
    if Extends(f, g) { assert Collide(f, Rest(f, g) + [0], g, []); }
    if Extends(g, f) { assert Collide(f, [], g, Rest(g, f) + [0]); }
    forall q, r | Collide(f, q, g, r) ensures Extends(f, g) || Extends(g, f) { CollisionExtends(f, q, g, r); }
  }

  /** What follows the null byte by which g extends f. */
  function Rest(f: bytes, g: bytes): (r: bytes)
    requires Extends(f, g)
    ensures f + [0] + r == g
  {
    g[|f| + 1..]
  }

  lemma CollisionExtends(f: bytes, q: bytes, g: bytes, r: bytes)
    requires f != g && Collide(f, q, g, r)
    ensures Extends(f, g) || Extends(g, f)
  {
    var k, l := f + [0] + q, g + [0] + r;
    assert k[..|f|] == f && k[|f|] == 0 && l[..|g|] == g && l[|g|] == 0;
    if |f| < |g| {
      assert g[..|f| + 1] == k[..|f| + 1] == f + [0];
    } else if |g| < |f| {
      assert f[..|g| + 1] == l[..|g| + 1] == g + [0];
    }
  }

  /** The cells of c's own column. */
  function OwnCells(row: Row, c: Cell): nat
    decreases |row|
  {
    if row == [] then 0
    else (if SameColumn(row[|row| - 1].cell, c) then 1 else 0) + OwnCells(row[..|row| - 1], c)
  }

  /** A cell passes exactly when fewer than n cells of its own column precede it. */
  ghost predicate LimitsColumns(n: int, row: Row) {
    forall i :: 0 <= i < |row| ==> (Mask(CellsPerColumnLimit(n), row)[i] <==> OwnCells(row[..i], row[i].cell) < n)
  }

  ghost predicate RowOver(row: Row, families: set<bytes>) {
    forall i :: 0 <= i < |row| ==> ValidCell(row[i].cell) && row[i].cell.family in families
  }

  ghost predicate NoneExtends(families: set<bytes>) { forall f, g :: f in families && g in families ==> !Extends(f, g) }

  lemma SameKeySameColumn(c: Cell, d: Cell)
    requires !Extends(c.family, d.family) && !Extends(d.family, c.family)
    ensures ColumnKey(c) == ColumnKey(d) <==> SameColumn(c, d)
  {
    if ColumnKey(c) == ColumnKey(d) {
      if c.family != d.family { CollisionExtends(c.family, c.qualifier, d.family, d.qualifier); }
      assert ColumnKey(c)[|c.family| + 1..] == c.qualifier && ColumnKey(d)[|c.family| + 1..] == d.qualifier;
    }
  }

  lemma {:induction false} KeyCountsColumn(row: Row, c: Cell, families: set<bytes>)
    requires RowOver(row, families) && c.family in families && NoneExtends(families)
    ensures Occurrences(row, ColumnKey(c)) == OwnCells(row, c)
    decreases |row|
  {
    hide ColumnKey, Extends;
    if row != [] {
      var n := |row| - 1;
      KeyCountsColumn(row[..n], c, families);
      SameKeySameColumn(row[n].cell, c);
    }
  }

  lemma LimitIsExact(n: int, row: Row, families: set<bytes>)
    requires RowOver(row, families) && NoneExtends(families)
    ensures LimitsColumns(n, row)
  {
    hide ColumnKey, Extends, Occurrences, OwnCells, NoneExtends;
    forall i | 0 <= i < |row| ensures Mask(CellsPerColumnLimit(n), row)[i] <==> OwnCells(row[..i], row[i].cell) < n {
      KeyCountsColumn(row[..i], row[i].cell, families);
    }
  }

  /** A row of two cells in different columns, in key order, one of which a limit of one cell per
      column drops. */
  lemma ExtensionDropsACell(f: bytes, g: bytes, key: bytes, ts: int) returns (row: Row)
    requires Extends(f, g) && |g| <= 255 && IsInt64(ts)
    ensures RowOver(row, {f, g}) && |row| == 2 && CellLess(row[0].cell, row[1].cell) &&
            !SameColumn(row[0].cell, row[1].cell)
    ensures Mask(CellsPerColumnLimit(1), row) == [true, false]
    ensures !LimitsColumns(1, row)
  {
    var c, d := Cell(key, f, Rest(f, g) + [0], ts), Cell(key, g, [], ts);
    row := [CellInfo(c, []), CellInfo(d, [])];
    assert ColumnKey(c) == ColumnKey(d);
    hide ColumnKey;
    TwoCells(row[0], row[1]);
    var m := Mask(CellsPerColumnLimit(1), row);
    assert row[..0] == [] && row[..1] == [row[0]] && [row[0]][..0] == [];
    assert m[0] && !m[1];
    assert OwnCells(row[..1], d) == 0;
  }

  lemma TwoCells(a: CellInfo, b: CellInfo)
    ensures Occurrences([], ColumnKey(a.cell)) == 0
    ensures Occurrences([a], ColumnKey(b.cell)) == if ColumnKey(a.cell) == ColumnKey(b.cell) then 1 else 0
  {
    assert [a][..0] == [];
  }

  /** Over a set of families the limit counts columns, in every row and for every limit, exactly
      when no family extends another by a null byte. */
  lemma ColumnLimitExactIff(families: set<bytes>)
    requires forall f :: f in families ==> |f| <= 255
    ensures (forall n, row :: RowOver(row, families) ==> LimitsColumns(n, row)) <==> NoneExtends(families)
  {
    hide LimitsColumns, RowOver;
    if NoneExtends(families) {
      forall n, row | RowOver(row, families) ensures LimitsColumns(n, row) { LimitIsExact(n, row, families); }
    } else {
      var f, g :| f in families && g in families && Extends(f, g);
      var row := ExtensionDropsACell(f, g, [], 0);
      MoreFamilies(row, {f, g}, families);
    }
  }

  lemma MoreFamilies(row: Row, a: set<bytes>, b: set<bytes>)
    requires RowOver(row, a) && a <= b
    ensures RowOver(row, b)
  {
  }
}
