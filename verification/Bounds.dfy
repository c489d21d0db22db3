/** Scan and delete bounds (pkg/bigtable/encoding.go, pkg/bigtable/readrows.go): which cells the
    key ranges of a row, a row range, a family, a column and a timestamp range hold.  Every
    statement covers every cell that has a key, so it also shows the cells that a bound misses:
    the end keys append 0xFF, and a length or an inverted timestamp may itself start with 0xFF. */
module Bounds {
  import opened Bytes
  import opened Encoding
  import opened Pebble

  /** rowEndKey, familyEndKey and columnEndKey */
  function EndKey(prefix: bytes): bytes { prefix + [255] }

  /** A tail of a key sorts below the end key exactly when its first byte is not 0xFF. */
  lemma UnderEndKey(k: bytes, prefix: bytes)
    ensures InRange(k, prefix, EndKey(prefix)) <==> prefix <= k && (|k| > |prefix| ==> k[|prefix|] < 255)
  {
    RangeUnderPrefix(k, prefix, [], [255]);
    assert prefix + [] == prefix;
    if prefix <= k && |k| > |prefix| {
      var t := k[|prefix|..];
      assert t[0] == k[|prefix|] && !Less(t[1..], [255][1..]);
    }
  }

  lemma RowBoundsExact(c: Cell, row: bytes)
    requires ValidCell(c)
    ensures InRange(CellKey(c), RowPrefix(row), EndKey(RowPrefix(row))) <==> c.row == row && |c.family| <= 254
  {
    var rp := RowPrefix(row);
    CellKeySplits(c);
    UnderEndKey(CellKey(c), rp);
    RowPrefixFree(row, [], c.row, FamilyTail(c.family, c.qualifier, c.ts));
  }

  /** A key starts with a family's prefix exactly when it belongs to that family of that row. */
  lemma FamilyPrefixExact(c: Cell, row: bytes, family: bytes)
    requires ValidCell(c) && |family| <= 255
    ensures FamilyPrefix(RowPrefix(row), family) <= CellKey(c) <==> c.row == row && c.family == family
  {
    var rp, fp, t := RowPrefix(row), FamilyPrefix(RowPrefix(row), family), FamilyTail(c.family, c.qualifier, c.ts);
    CellKeySplits(c);
    TailsAreFields(c.family, c.qualifier, c.ts);
    RowPrefixFree(row, [], c.row, t);
    PrefixesAreFields(rp, family);
    if fp <= CellKey(c) { assert rp <= fp; }
    if c.row == row {
      FieldPrefixFree(family, c.family, QualifierTail(c.qualifier, c.ts), 1);
      PrefixUnderPrefix(rp, Field(family, 1, []), t);
    }
  }

  lemma PrefixUnderPrefix(p: bytes, a: bytes, b: bytes)
    ensures p + a <= p + b <==> a <= b
  {
    assert forall i :: 0 <= i < |a| ==> (p + a)[|p| + i] == a[i];
    if p + a <= p + b { assert a == (p + a)[|p|..] == (p + b)[|p|..|p| + |a|] == b[..|a|]; }
  }

  lemma FamilyBoundsExact(c: Cell, row: bytes, family: bytes)
    requires ValidCell(c) && |family| <= 255
    ensures var fp := FamilyPrefix(RowPrefix(row), family);
      InRange(CellKey(c), fp, EndKey(fp)) <==> c.row == row && c.family == family && |c.qualifier| < 65280
  {
    var fp := FamilyPrefix(RowPrefix(row), family);
    UnderEndKey(CellKey(c), fp);
    FamilyPrefixExact(c, row, family);
    if c.row == row && c.family == family {
      CellKeySplits(c);
      QualifierTopByte(c.qualifier, c.ts);
    }
  }

  lemma QualifierTopByte(qualifier: bytes, ts: int)
    requires |qualifier| <= 65535
    ensures QualifierTail(qualifier, ts)[0] == |qualifier| / 256
  {
    var n := |qualifier|;
    assert BigEndian(n / 256, 1) == BigEndian(n / 256 / 256, 0) + [n / 256];
    assert BigEndian(n, 2)[0] == n / 256;
  }

  lemma ColumnPrefixExact(c: Cell, row: bytes, family: bytes, qualifier: bytes)
    requires ValidCell(c) && |family| <= 255 && |qualifier| <= 65535
    ensures var cp := ColumnOf(row, family, qualifier);
      && (cp <= CellKey(c) <==> c.row == row && c.family == family && c.qualifier == qualifier)
      && (cp <= CellKey(c) ==> CellKey(c)[|cp|..] == BigEndian(InvertedTimestamp(c.ts), 8))
  {
    var fp, cp := FamilyPrefix(RowPrefix(row), family), ColumnOf(row, family, qualifier);
    FamilyPrefixExact(c, row, family);
    CellKeySplits(c);
    TailsAreFields(c.family, c.qualifier, c.ts);
    PrefixesAreFields(fp, qualifier);
    if cp <= CellKey(c) { assert fp <= cp; }
    if c.row == row && c.family == family {
      FieldPrefixFree(qualifier, c.qualifier, BigEndian(InvertedTimestamp(c.ts), 8), 2);
      PrefixUnderPrefix(fp, Field(qualifier, 2, []), QualifierTail(c.qualifier, c.ts));
    }
  }

  lemma TopByte(inv: nat)
    requires inv <= MAX_UINT64
    ensures BigEndian(inv, 8)[0] < 255 <==> inv < 0xff00_0000_0000_0000
  {
    PowersOf256();
    var edge := 0xff00_0000_0000_0000;
    BigEndianOrder(inv, edge, 8);
    assert BigEndian(edge, 8) == [255, 0, 0, 0, 0, 0, 0, 0] by { EdgeBytes(edge); }
    NothingUnderZeros(BigEndian(inv, 8)[1..], 7);
    assert BigEndian(edge, 8)[1..] == seq(7, _ => 0 as byte);
  }

  lemma EdgeBytes(edge: nat)
    requires edge == 0xff00_0000_0000_0000
    ensures BigEndian(edge, 8) == [255, 0, 0, 0, 0, 0, 0, 0]
  {
    assert BigEndian(0xff, 1) == [255] by { assert BigEndian(0, 0) == []; }
    assert BigEndian(0xff00, 2) == [255, 0];
    assert BigEndian(0xff_0000, 3) == [255, 0, 0];
    assert BigEndian(0xff00_0000, 4) == [255, 0, 0, 0];
    assert BigEndian(0xff_0000_0000, 5) == [255, 0, 0, 0, 0];
    assert BigEndian(0xff00_0000_0000, 6) == [255, 0, 0, 0, 0, 0];
    assert BigEndian(0xff_0000_0000_0000, 7) == [255, 0, 0, 0, 0, 0, 0];
  }

  lemma {:induction false} NothingUnderZeros(k: bytes, n: nat)
    requires |k| == n
    ensures !Less(k, seq(n, _ => 0))
  {
    if n > 0 {
      NothingUnderZeros(k[1..], n - 1);
      assert seq(n, _ => 0 as byte)[1..] == seq(n - 1, _ => 0 as byte);
    }
  }

  lemma ColumnBoundsExact(c: Cell, row: bytes, family: bytes, qualifier: bytes)
    requires ValidCell(c) && |family| <= 255 && |qualifier| <= 65535
    ensures var cp := ColumnOf(row, family, qualifier);
      InRange(CellKey(c), cp, EndKey(cp)) <==>
        c.row == row && c.family == family && c.qualifier == qualifier && c.ts >= MIN_INT64 + 0x100_0000_0000_0000
  {
    var cp := ColumnOf(row, family, qualifier);
    UnderEndKey(CellKey(c), cp);
    ColumnPrefixExact(c, row, family, qualifier);
    InvertedTimestampExact(c.ts);
    TopByte(InvertedTimestamp(c.ts));
    if cp <= CellKey(c) { assert CellKey(c)[|cp|] == CellKey(c)[|cp|..][0]; }
  }

  /* ---- Timestamp ranges ---- */

  /** One past an inverted timestamp: uint64 addition that saturates instead of wrapping to 0. */
  function Shifted(inv: nat): (r: nat)
    requires inv <= MAX_UINT64
    ensures r == if inv == MAX_UINT64 then MAX_UINT64 else inv + 1
  {
    var next := ToUint64(inv + 1);
    if next == 0 then MAX_UINT64 else next
  }

  function TimestampRangeBounds(columnPrefix: bytes, startTs: int, endTs: int): (bytes, bytes) {
    (TimestampKey(columnPrefix, Shifted(InvertedTimestamp(endTs))),
     TimestampKey(columnPrefix, Shifted(InvertedTimestamp(startTs))))
  }

  /** The range holds the cells with start <= ts < end, for all int64 bounds; the saturation
      costs exactly the cell at MinInt64 of a range that starts there. */
  lemma TimestampRangeExact(c: Cell, row: bytes, family: bytes, qualifier: bytes, startTs: int, endTs: int)
    requires ValidCell(c) && |family| <= 255 && |qualifier| <= 65535 && IsInt64(startTs) && IsInt64(endTs)
    ensures var (lo, hi) := TimestampRangeBounds(ColumnOf(row, family, qualifier), startTs, endTs);
      InRange(CellKey(c), lo, hi) <==>
        && c.row == row && c.family == family && c.qualifier == qualifier
        && startTs <= c.ts < endTs && c.ts != MIN_INT64
  {
    var cp := ColumnOf(row, family, qualifier);
    InvertedTimestampExact(startTs);
    InvertedTimestampExact(endTs);
    InvertedTimestampExact(c.ts);
    var lo, hi, inv := Shifted(InvertedTimestamp(endTs)), Shifted(InvertedTimestamp(startTs)), InvertedTimestamp(c.ts);
    RangeUnderPrefix(CellKey(c), cp, BigEndian(lo, 8), BigEndian(hi, 8));
    ColumnPrefixExact(c, row, family, qualifier);
    PowersOf256();
    BigEndianOrder(inv, lo, 8);
    BigEndianOrder(inv, hi, 8);
  }

  /* ---- Row ranges ---- */

  datatype Bound = Unbounded | Closed(key: bytes) | Open(key: bytes)
  datatype RowRange = RowRange(start: Bound, end: Bound)

  function RowKeyBounds(row: bytes): KeyRange {
    KeyRange(Some(RowPrefix(row)), Some(EndKey(RowPrefix(row))))
  }

  /** A point read of a row reaches exactly the row's cells whose family has at most 254 bytes. */
  lemma RowKeyBoundsExact(c: Cell, row: bytes)
    requires ValidCell(c)
    ensures Within(CellKey(c), RowKeyBounds(row)) <==> c.row == row && |c.family| <= 254
  {
    RowBoundsExact(c, row);
  }

  function RowRangeBounds(r: RowRange): KeyRange {
    KeyRange(
      match r.start {
        case Unbounded => None
        case Closed(k) => Some(RowPrefix(k))
        case Open(k) => Some(RowPrefix(k) + [255])
      },
      match r.end {
        case Unbounded => None
        case Closed(k) => Some(EndKey(RowPrefix(k)))
        case Open(k) => Some(RowPrefix(k))
      })
  }

  predicate AfterStart(row: bytes, b: Bound) {
    match b
    case Unbounded => true
    case Closed(k) => row == k || Less(k, row)
    case Open(k) => Less(k, row)
  }

  predicate BeforeEnd(row: bytes, b: Bound) {
    match b
    case Unbounded => true
    case Closed(k) => row == k || Less(row, k)
    case Open(k) => Less(row, k)
  }

  predicate RowIn(row: bytes, r: RowRange) { AfterStart(row, r.start) && BeforeEnd(row, r.end) }

  /** A 255-byte family makes the cell sort behind its own row's end key. */
  predicate WideFamily(c: Cell) { |c.family| == 255 }

  lemma AgainstRowPrefix(c: Cell, k: bytes)
    requires ValidCell(c)
    ensures Less(CellKey(c), RowPrefix(k)) <==> Less(c.row, k)
    ensures Less(CellKey(c), EndKey(RowPrefix(k))) <==> Less(c.row, k) || (c.row == k && !WideFamily(c))
  {
    var t := FamilyTail(c.family, c.qualifier, c.ts);
    CellKeySplits(c);
    LessIrreflexive(k);
    assert RowPrefix(k) + [] == RowPrefix(k);
    if c.row != k {
      RowPrefixOrder(c.row, t, k, []);
      RowPrefixOrder(c.row, t, k, [255]);
    } else {
      LessCommonPrefix(RowPrefix(k), t, []);
      LessCommonPrefix(RowPrefix(k), t, [255]);
    }
  }

  /** The cells that a scan of a row range meets: those of its rows, up to wide families at its ends. */
  predicate Meets(c: Cell, r: RowRange) {
    && (AfterStart(c.row, r.start) || (r.start.Open? && c.row == r.start.key && WideFamily(c)))
    && BeforeEnd(c.row, r.end) && !(r.end.Closed? && c.row == r.end.key && WideFamily(c))
  }

  lemma RowRangeExact(c: Cell, r: RowRange)
    requires ValidCell(c)
    ensures Within(CellKey(c), RowRangeBounds(r)) <==> Meets(c, r)
  {
    if !r.start.Unbounded? { AgainstRowPrefix(c, r.start.key); LessTotal(c.row, r.start.key); LessIrreflexive(c.row); }
    if !r.end.Unbounded? { AgainstRowPrefix(c, r.end.key); LessIrreflexive(c.row); }
    if !r.start.Unbounded? && Less(c.row, r.start.key) { LessAsymmetric(c.row, r.start.key); }
    if !r.start.Unbounded? && Less(r.start.key, c.row) { LessAsymmetric(r.start.key, c.row); }
  }

  /** A scan range means its row range for every table exactly when neither an open start nor a
      closed end can be met by a cell with a 255-byte family. */
  lemma RowRangeBoundsMeanRows(r: RowRange)
    ensures (forall c :: ValidCell(c) ==> (Within(CellKey(c), RowRangeBounds(r)) <==> RowIn(c.row, r))) <==>
      !(r.start.Open? && BeforeEnd(r.start.key, r.end) && r.end != Closed(r.start.key)) && !(r.end.Closed? && AfterStart(r.end.key, r.start))
  {
    forall c | ValidCell(c)
      ensures Within(CellKey(c), RowRangeBounds(r)) <==> Meets(c, r)
    {
      RowRangeExact(c, r);
    }
    var wide: bytes := seq(255, _ => 97);
    if r.start.Open? {
      LessIrreflexive(r.start.key);
      assert ValidCell(Cell(r.start.key, wide, [], 0));
    }
    if r.end.Closed? {
      LessIrreflexive(r.end.key);
      assert ValidCell(Cell(r.end.key, wide, [], 0));
    }
  }
}
