/** Deletions whose family or qualifier is too long for the key layout (pkg/bigtable/mutate.go).  The
    encoder returns a nil prefix for such a name, and the deletion goes on with what is left. */
module StrayDeletions {
  import opened Bytes
  import opened Encoding
  import opened Bounds
  import opened Pebble
  import opened Mutate

  /* ---- Over-long families and qualifiers ---- */

  /** A family deletion stays within its row exactly when the family fits its length byte: an
      over-long family has the nil prefix, and the range becomes everything below 0xFF. */
  lemma FamilyDeletionIsLocal(row: bytes, family: bytes, now: int)
    ensures var op := MutationOp(row, DeleteFromFamily(family), now).value;
      (forall c :: ValidCell(c) && c.row != row ==> !InRange(CellKey(c), op.lower, op.upper)) <==> |family| <= 255
  {
    var op := MutationOp(row, DeleteFromFamily(family), now).value;
    if |family| <= 255 {
      forall c | ValidCell(c) && c.row != row ensures !InRange(CellKey(c), op.lower, op.upper) {
        FamilyBoundsExact(c, row, family);
      }
    } else {
      var other: bytes := if row == [1] then [2] else [1];
      var c := Cell(other, [], [], 0);
      OverlongFamilyDeletion(row, family, now, c);
      assert ValidCell(c) && c.row != row && InRange(CellKey(c), op.lower, op.upper);
    }
  }

  /** What an over-long family deletion removes: the whole table, but for rows whose key starts with 0xFF. */
  lemma OverlongFamilyDeletion(row: bytes, family: bytes, now: int, c: Cell)
    requires |family| > 255 && ValidCell(c)
    ensures var op := MutationOp(row, DeleteFromFamily(family), now).value;
      InRange(CellKey(c), op.lower, op.upper) <==> c.row == [] || c.row[0] < 255
  {
    assert MutationOp(row, DeleteFromFamily(family), now).value == DeleteRange([], [255]) by { assert [] + [255] == [255]; }
    BelowFF(c);
  }

  /** The keys below 0xFF are those of the rows that do not start with 0xFF. */
  lemma BelowFF(c: Cell)
    requires ValidCell(c)
    ensures InRange(CellKey(c), [], [255]) <==> c.row == [] || c.row[0] < 255
  {
    CellKeySplits(c);
    if c.row != [] { RowPrefixHead(c.row); }
    UnderEndKey(CellKey(c), []);
    assert [] + [255] == [255];
    assert CellKey(c)[0] == RowPrefix(c.row)[0];
  }

  /** With an over-long qualifier the range is everything below 0xFF again. */
  lemma OverlongQualifierDeletion(row: bytes, family: bytes, qualifier: bytes, now: int, c: Cell)
    requires |qualifier| > 65535 && ValidCell(c)
    ensures var op := MutationOp(row, DeleteFromColumn(family, qualifier, None), now).value;
      InRange(CellKey(c), op.lower, op.upper) <==> c.row == [] || c.row[0] < 255
  {
    assert MutationOp(row, DeleteFromColumn(family, qualifier, None), now).value == DeleteRange([], [255]) by {
      assert [] + [255] == [255];
    }
    BelowFF(c);
  }

  /** With an over-long qualifier and a time range, the bounds are compared with the first eight
      bytes of the keys, whatever row they belong to. */
  lemma OverlongQualifierRange(row: bytes, family: bytes, qualifier: bytes, range: TimeRange, now: int, c: Cell)
    requires |qualifier| > 65535 && ValidCell(c) && IsInt64(now) && IsInt64(range.start) && IsInt64(range.end)
    ensures var op := MutationOp(row, DeleteFromColumn(family, qualifier, Some(range)), now).value;
      var (lo, hi) := InvertedRange(range, now);
      |CellKey(c)| >= 8 && (InRange(CellKey(c), op.lower, op.upper) <==> lo <= FromBigEndian(CellKey(c)[..8]) < hi)
  {
    var (lo, hi) := InvertedRange(range, now);
    CellKeySplits(c);
    assert |CellKey(c)| >= 8;
    hide CellKey, InvertedTimestamp, Shifted;
    PowersOf256();
    FirstEight(CellKey(c), lo);
    FirstEight(CellKey(c), hi);
    assert [] + BigEndian(lo, 8) == BigEndian(lo, 8) && [] + BigEndian(hi, 8) == BigEndian(hi, 8);
  }

  lemma FirstEight(k: bytes, n: nat)
    requires |k| >= 8 && n <= MAX_UINT64
    ensures Less(k, BigEndian(n, 8)) <==> FromBigEndian(k[..8]) < n
  {
    var head, m := k[..8], FromBigEndian(k[..8]);
    FromBigEndianRoundTrip(head);
    PowersOf256();
    BigEndianOrder(m, n, 8);
    assert k == head + k[8..] && BigEndian(n, 8) + [] == BigEndian(n, 8);
    if m == n {
      LessCommonPrefix(head, k[8..], []);
    } else {
      LessFixedWidth(head, k[8..], BigEndian(n, 8), []);
    }
  }

  /* ---- Over-long families in column deletions ---- */

  /** The key has this prefix, not followed by 0xFF. */
  predicate Continues(p: bytes, k: bytes) { p <= k && (|k| > |p| ==> k[|p|] < 255) }

  /** What a stray prefix names: a row, the cells of a row that go on in some way, or nothing. */
  datatype Target = WholeRow(row: bytes) | PartOfRow(row: bytes, rest: bytes) | NoCell

  function Under(b: byte, t: Target): Target {
    match t
    case WholeRow(r) => WholeRow([b] + r)
    case PartOfRow(r, rest) => PartOfRow([b] + r, rest)
    case NoCell => NoCell
  }

  /** Reads a prefix that ends in a null byte as the beginning of a key. */
  function TargetOf(p: bytes): Target
    requires p != [] && p[|p| - 1] == 0
    decreases |p|
  {
    if p == [0] then WholeRow([])
    else if p[0] != 0 then Under(p[0], TargetOf(p[1..]))
    else if p[1] == 255 then Under(0, TargetOf(p[2..]))
    else if p[1] == 0 then PartOfRow([], p[2..])
    else NoCell
  }

  /** A row if the prefix is its escaped key and one null byte; part of a row if it goes beyond a row
      prefix; nothing if, before that, a null byte is followed by neither 0x00 nor 0xFF. */
  ghost predicate Means(p: bytes, t: Target) {
    match t
    case WholeRow(r) => p == Escape(r) + [0]
    case PartOfRow(r, rest) => p == RowPrefix(r) + rest
    case NoCell => exists r, b :: NoEscape(p, r, b)
  }

  /** After some escaped bytes, a null byte and a byte that makes no key. */
  ghost predicate NoEscape(p: bytes, r: bytes, b: byte) { b != 0 && b != 255 && Escape(r) + [0, b] <= p }

  lemma {:induction false} TargetMeans(p: bytes)
    requires p != [] && p[|p| - 1] == 0
    ensures Means(p, TargetOf(p))
    decreases |p|
  {
    if p != [0] {
      if p[0] != 0 {
        TargetMeans(p[1..]);
        UnderMeans(p[0], p[1..], TargetOf(p[1..]));
        assert p == EscapeByte(p[0]) + p[1..];
      } else if p[1] == 255 {
        TargetMeans(p[2..]);
        UnderMeans(0, p[2..], TargetOf(p[2..]));
        assert p == EscapeByte(0) + p[2..];
      } else if p[1] == 0 {
        assert p == RowPrefix([]) + p[2..];
      } else {
        assert NoEscape(p, [], p[1]);
      }
    }
  }

  lemma UnderMeans(b: byte, p: bytes, t: Target)
    requires Means(p, t)
    ensures Means(EscapeByte(b) + p, Under(b, t))
  {
    var h := EscapeByte(b);
    match t
    case WholeRow(r) =>
      EscapeUnder(b, r);
      assert h + Escape(r) + [0] == h + (Escape(r) + [0]);
    case PartOfRow(r, rest) =>
      EscapeUnder(b, r);
      assert h + Escape(r) + [0, 0] + rest == h + (Escape(r) + [0, 0] + rest);
    case NoCell =>
      var r, c :| NoEscape(p, r, c);
      EscapeUnder(b, r);
      assert Escape([b] + r) + [0, c] == h + (Escape(r) + [0, c]);
      PrefixUnderPrefix(h, Escape(r) + [0, c], p);
      assert NoEscape(h + p, [b] + r, c);
  }

  lemma EscapeUnder(b: byte, r: bytes)
    ensures Escape([b] + r) == EscapeByte(b) + Escape(r)
  {
    assert ([b] + r)[1..] == r;
  }

  predicate Hits(t: Target, row: bytes, tail: bytes) {
    match t
    case WholeRow(r) => row == r
    case PartOfRow(r, rest) => row == r && Continues(rest, tail)
    case NoCell => false
  }

  /** Exactly the keys that the target describes continue the prefix. */
  lemma {:induction false} TargetExact(p: bytes, row: bytes, tail: bytes)
    requires p != [] && p[|p| - 1] == 0
    ensures Continues(p, RowPrefix(row) + tail) <==> Hits(TargetOf(p), row, tail)
    decreases |p|
  {
    var k := RowPrefix(row) + tail;
    KeyHead(row, tail);
    if row == [] {
      if |p| > 1 && p[0] == 0 && p[1] == 0 {
        assert p == [0, 0] + p[2..];
        Shift([0, 0], p[2..], tail);
      }
    } else {
      var head, rest := EscapeByte(row[0]), RowPrefix(row[1..]) + tail;
      if p != [0] && head <= p {
        assert p == head + p[|head|..];
        TargetExact(p[|head|..], row[1..], tail);
        Shift(head, p[|head|..], rest);
      } else {
        assert k[0] == row[0];
        if row[0] == 0 { assert k[1] == 255; }
      }
    }
  }

  lemma KeyHead(row: bytes, tail: bytes)
    ensures row == [] ==> RowPrefix(row) + tail == [0, 0] + tail
    ensures row != [] ==> row == [row[0]] + row[1..]
    ensures row != [] ==> RowPrefix(row) + tail == EscapeByte(row[0]) + (RowPrefix(row[1..]) + tail)
  {
    if row == [] {
      assert RowPrefix([]) == [0, 0];
    } else {
      RowPrefixHead(row);
      hide RowPrefix;
    }
  }

  lemma Shift(h: bytes, p: bytes, k: bytes)
    ensures Continues(h + p, h + k) <==> Continues(p, k)
  {
    PrefixUnderPrefix(h, p, k);
    if |k| > |p| { assert (h + k)[|h + p|] == k[|p|]; }
  }

  /** The prefix that is left of an over-long family's column. */
  function StrayColumn(qualifier: bytes): (p: bytes)
    requires |qualifier| <= 65535
    ensures p != [] && p[|p| - 1] == 0
  {
    BigEndian(|qualifier|, 2) + qualifier + [0]
  }

  /** A column deletion with an over-long family removes what the qualifier, with its length before
      it and a null byte behind it, names when read as a key, whichever row was asked for. */
  lemma OverlongFamilyInColumn(row: bytes, family: bytes, qualifier: bytes, now: int, c: Cell)
    requires |family| > 255 && |qualifier| <= 65535 && ValidCell(c)
    ensures var op := MutationOp(row, DeleteFromColumn(family, qualifier, None), now).value;
      InRange(CellKey(c), op.lower, op.upper)
      <==> Hits(TargetOf(StrayColumn(qualifier)), c.row, FamilyTail(c.family, c.qualifier, c.ts))
  {
    var m := DeleteFromColumn(family, qualifier, None);
    StrayDeletion(row, m, now, CellKey(c));
    assert StrayPrefix(m) == StrayColumn(qualifier) by { assert [] + BigEndian(|qualifier|, 2) == BigEndian(|qualifier|, 2); }
    CellKeySplits(c);
    hide CellKey, FamilyTail, ColumnPrefix, MutationOp, StrayColumn;
    TargetExact(StrayColumn(qualifier), c.row, FamilyTail(c.family, c.qualifier, c.ts));
  }

  /** For ordinary qualifiers that is nothing; for the empty one, the empty row's cells of the empty family. */
  lemma ShortQualifiersStray(row: bytes, family: bytes, qualifier: bytes, now: int, c: Cell)
    requires |family| > 255 && |qualifier| <= 254 && ValidCell(c)
    ensures var op := MutationOp(row, DeleteFromColumn(family, qualifier, None), now).value;
      InRange(CellKey(c), op.lower, op.upper) <==> qualifier == [] && c.row == [] && c.family == []
  {
    OverlongFamilyInColumn(row, family, qualifier, now, c);
    var p := StrayColumn(qualifier);
    assert BigEndian(|qualifier|, 2) == [0, |qualifier|] by { TwoBytes(|qualifier|); }
    assert p[0] == 0 && p[1] == |qualifier|;
    if qualifier == [] {
      assert p == [0, 0, 0] && p[2..] == [0];
    }
  }

  lemma TwoBytes(n: nat)
    requires n < 65536
    ensures BigEndian(n, 2) == [n / 256, n % 256]
  {
    assert BigEndian(n / 256, 1) == BigEndian(n / 256 / 256, 0) + [n / 256 % 256];
  }

  /* ---- When a column deletion is local ---- */

  /** Some cell's tail goes on like this: a complete beginning of family, qualifier and timestamp. */
  predicate TailPrefix(s: bytes) {
    s == [] || var n: nat := s[0]; |s| <= 1 + n || (s[1 + n] == 0 && QualifierPrefix(s[2 + n..]))
  }

  predicate QualifierPrefix(t: bytes) {
    |t| < 2 || var m := FromBigEndian(t[..2]); |t| <= 2 + m || (t[2 + m] == 0 && |t| <= 11 + m)
  }

  function Zeros(n: int): (z: bytes)
    requires n >= 0
    ensures |z| == n && forall i :: 0 <= i < n ==> z[i] == 0
  {
    seq(n, _ => 0)
  }

  ghost predicate BeginsTail(s: bytes, f: bytes, q: bytes, ts: int) {
    |f| <= 255 && |q| <= 65535 && IsInt64(ts) && Continues(s, FamilyTail(f, q, ts))
  }

  ghost predicate BeginsQualifier(t: bytes, q: bytes, ts: int) { |q| <= 65535 && IsInt64(ts) && Continues(t, QualifierTail(q, ts)) }

  /** A string that something starting below 0xFF completes to the whole. */
  lemma Completes(s: bytes, rest: bytes, whole: bytes)
    requires whole == s + rest && (rest != [] ==> rest[0] < 255)
    ensures Continues(s, whole)
  {
    if rest != [] { assert whole[|s|] == rest[0]; }
  }

  lemma QualifierCompletes(t: bytes) returns (q: bytes, ts: int)
    requires QualifierPrefix(t)
    ensures BeginsQualifier(t, q, ts)
  {
    hide BeginsQualifier, BigEndian, FromBigEndian;
    if |t| < 2 {
      q, ts := ShortQualifierCompletes(t);
    } else {
      var head := t[..2];
      var m := FromBigEndian(head);
      PowersOf256();
      FromBigEndianRoundTrip(head);
      if |t| <= 2 + m {
        q, ts := OpenQualifierCompletes(head, t[2..], m);
        assert t == head + t[2..];
      } else {
        q := t[2..2 + m];
        assert t == head + (q + ([0] + t[3 + m..]));
        ts := TimestampCompletes(t, head, q, t[3 + m..]);
      }
    }
  }

  lemma OpenQualifierCompletes(head: bytes, begun: bytes, m: nat) returns (q: bytes, ts: int)
    requires head == BigEndian(m, 2) && |begun| <= m <= 65535
    ensures BeginsQualifier(head + begun, q, ts)
  {
    hide InvertedTimestamp, BigEndian;
    ts := 0;
    var z := Zeros(m - |begun|);
    q := begun + z;
    var stamp := BigEndian(InvertedTimestamp(ts), 8);
    var rest := z + ([0] + stamp);
    assert q + ([0] + stamp) == begun + rest;
    assert head + (begun + rest) == head + begun + rest;
    assert rest[0] == 0;
    Completes(head + begun, rest, QualifierTail(q, ts));
  }

  lemma ShortQualifierCompletes(t: bytes) returns (q: bytes, ts: int)
    requires |t| < 2
    ensures BeginsQualifier(t, q, ts)
  {
    hide InvertedTimestamp;
    ts := 0;
    var n: nat := if t == [] then 0 else t[0];
    q := Zeros(256 * n);
    TwoBytes(256 * n);
    assert BigEndian(256 * n, 2) == [n, 0];
    var k := QualifierTail(q, ts);
    assert k[0] == n && k[1] == 0;
  }

  lemma TimestampCompletes(t: bytes, head: bytes, q: bytes, u: bytes) returns (ts: int)
    requires t == head + (q + ([0] + u)) && |q| <= 65535 && head == BigEndian(|q|, 2) && |u| <= 8
    ensures BeginsQualifier(t, q, ts)
  {
    hide InvertedTimestamp, TimestampFromInverted, BigEndian, FromBigEndian;
    var z := Zeros(8 - |u|);
    var v := u + z;
    PowersOf256();
    FromBigEndianRoundTrip(v);
    ts := TimestampFromInverted(FromBigEndian(v));
    TimestampFromInvertedExact(FromBigEndian(v));
    assert QualifierTail(q, ts) == t + z;
    Completes(t, z, QualifierTail(q, ts));
  }

  lemma TailCompletes(s: bytes) returns (f: bytes, q: bytes, ts: int)
    requires TailPrefix(s)
    ensures BeginsTail(s, f, q, ts)
  {
    hide QualifierTail, InvertedTimestamp, QualifierPrefix;
    if s == [] {
      f, q, ts := [], [], 0;
    } else {
      var n: nat := s[0];
      if |s| <= 1 + n {
        q, ts := [], 0;
        var z := Zeros(n - |s[1..]|);
        f := s[1..] + z;
        assert FamilyTail(f, q, ts) == s + (z + ([0] + QualifierTail(q, ts)));
        Completes(s, z + ([0] + QualifierTail(q, ts)), FamilyTail(f, q, ts));
      } else {
        f := s[1..1 + n];
        q, ts := QualifierCompletes(s[2 + n..]);
        var h := [s[0]] + (f + [0]);
        assert s == h + s[2 + n..] && FamilyTail(f, q, ts) == h + QualifierTail(q, ts);
        Shift(h, s[2 + n..], QualifierTail(q, ts));
      }
    }
  }

  lemma TailBeginsSo(s: bytes, f: bytes, q: bytes, ts: int)
    requires BeginsTail(s, f, q, ts)
    ensures TailPrefix(s)
  {
    hide InvertedTimestamp, QualifierPrefix;
    var k := FamilyTail(f, q, ts);
    if s != [] {
      var n: nat := s[0];
      assert k[0] == |f|;
      if |s| > 1 + n {
        var h := [s[0]] + (f + [0]);
        assert k == h + QualifierTail(q, ts);
        assert s[1 + n] == k[1 + n] == 0 && s == h + s[2 + n..] by { assert s[..2 + n] == k[..2 + n] == h; }
        Shift(h, s[2 + n..], QualifierTail(q, ts));
        QualifierBeginsSo(s[2 + n..], q, ts);
      }
    }
  }

  lemma QualifierBeginsSo(t: bytes, q: bytes, ts: int)
    requires BeginsQualifier(t, q, ts)
    ensures QualifierPrefix(t)
  {
    hide InvertedTimestamp, BigEndian, FromBigEndian;
    var k := QualifierTail(q, ts);
    PowersOf256();
    BigEndianRoundTrip(|q|, 2);
    if |t| >= 2 {
      assert t[..2] == k[..2] == BigEndian(|q|, 2);
      if |t| > 2 + |q| { assert t[2 + |q|] == k[2 + |q|] == 0; }
    }
  }

  /** Some cell of a row has a tail that goes on so exactly when that is the beginning of one. */
  lemma TailPrefixIff(s: bytes)
    ensures TailPrefix(s) <==> exists f, q, ts :: BeginsTail(s, f, q, ts)
  {
    if TailPrefix(s) { var f, q, ts := TailCompletes(s); }
    if f, q, ts :| BeginsTail(s, f, q, ts) { TailBeginsSo(s, f, q, ts); }
  }

  /** The stray prefix of an over-long family names no cell of another row. */
  predicate StaysIn(row: bytes, t: Target) {
    match t
    case WholeRow(r) => r == row
    case PartOfRow(r, rest) => r == row || !TailPrefix(rest)
    case NoCell => true
  }

  /** A column deletion without a time range stays within its row exactly when its names fit, or the
      family does not, the qualifier does, and what it names as a key is this row or no cell. */
  lemma ColumnDeletionIsLocal(row: bytes, family: bytes, qualifier: bytes, now: int)
    ensures var op := MutationOp(row, DeleteFromColumn(family, qualifier, None), now).value;
      (forall c :: ValidCell(c) && c.row != row ==> !InRange(CellKey(c), op.lower, op.upper)) <==>
        |qualifier| <= 65535 && (|family| <= 255 || StaysIn(row, TargetOf(StrayColumn(qualifier))))
  {
    hide CellKey, TargetOf, StrayColumn, TailPrefix, FamilyTail;
    var op := MutationOp(row, DeleteFromColumn(family, qualifier, None), now).value;
    if |qualifier| > 65535 {
      var other: bytes := if row == [1] then [2] else [1];
      var c := Cell(other, [], [], 0);
      OverlongQualifierDeletion(row, family, qualifier, now, c);
      assert ValidCell(c) && c.row != row && InRange(CellKey(c), op.lower, op.upper);
    } else if |family| <= 255 {
      forall c | ValidCell(c) && c.row != row ensures !InRange(CellKey(c), op.lower, op.upper) {
        ColumnBoundsExact(c, row, family, qualifier);
      }
    } else {
      StrayIsLocal(row, family, qualifier, now);
    }
  }

  lemma StrayIsLocal(row: bytes, family: bytes, qualifier: bytes, now: int)
    requires |family| > 255 && |qualifier| <= 65535
    ensures var op := MutationOp(row, DeleteFromColumn(family, qualifier, None), now).value;
      (forall c :: ValidCell(c) && c.row != row ==> !InRange(CellKey(c), op.lower, op.upper)) <==>
        StaysIn(row, TargetOf(StrayColumn(qualifier)))
  {
    hide CellKey, TargetOf, StrayColumn, TailPrefix, FamilyTail, Continues;
    var op := MutationOp(row, DeleteFromColumn(family, qualifier, None), now).value;
    var t := TargetOf(StrayColumn(qualifier));
    forall c | ValidCell(c)
      ensures InRange(CellKey(c), op.lower, op.upper) <==> Hits(t, c.row, FamilyTail(c.family, c.qualifier, c.ts))
    {
      OverlongFamilyInColumn(row, family, qualifier, now, c);
    }
    match t
    case WholeRow(r) =>
      var c := Cell(r, [], [], 0);
      assert ValidCell(c) && Hits(t, c.row, FamilyTail(c.family, c.qualifier, c.ts));
    case PartOfRow(r, rest) =>
      TailPrefixIff(rest);
      if f, q, ts :| BeginsTail(rest, f, q, ts) {
        var c := Cell(r, f, q, ts);
        assert ValidCell(c) && Hits(t, c.row, FamilyTail(c.family, c.qualifier, c.ts));
      } else {
        forall c | ValidCell(c) ensures !Hits(t, c.row, FamilyTail(c.family, c.qualifier, c.ts)) {
          assert !BeginsTail(rest, c.family, c.qualifier, c.ts);
        }
      }
    case NoCell =>
  }
}
