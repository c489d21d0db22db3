/** Cell keys (pkg/bigtable/encoding.go): the layout, its order, and its decoders. */
module Encoding {
  import opened Bytes

  const MAX_INT64: int := 0x7fff_ffff_ffff_ffff
  const MIN_INT64: int := -0x8000_0000_0000_0000
  const TWO_64: int := 0x1_0000_0000_0000_0000
  const MAX_UINT64: int := TWO_64 - 1

  predicate IsInt64(x: int) { MIN_INT64 <= x <= MAX_INT64 }

  /** Go's wrapping conversion to int64 and to uint64. */
  function ToInt64(x: int): (r: int)
    ensures IsInt64(r) && (IsInt64(x) ==> r == x)
  {
    (x - MIN_INT64) % TWO_64 + MIN_INT64
  }

  function ToUint64(x: int): (r: nat)
    ensures r <= MAX_UINT64 && (0 <= x <= MAX_UINT64 ==> r == x)
  {
    x % TWO_64
  }

  function InvertedTimestamp(ts: int): nat { ToUint64(ToInt64(MAX_INT64 - ts)) }

  function TimestampFromInverted(inv: nat): int { ToInt64(MAX_INT64 - ToInt64(inv)) }

  /** The overflow of the int64 subtraction is harmless: the inverted timestamp is the exact
      difference for every int64, and inversion is undone exactly. */
  lemma InvertedTimestampExact(ts: int)
    requires IsInt64(ts)
    ensures InvertedTimestamp(ts) == MAX_INT64 - ts
    ensures TimestampFromInverted(InvertedTimestamp(ts)) == ts
  {
    var d := MAX_INT64 - ts;
    if d > MAX_INT64 {
      assert ToInt64(d) == d - TWO_64;
      assert ToUint64(d - TWO_64) == d;
    }
  }

  lemma TimestampFromInvertedExact(inv: nat)
    requires inv <= MAX_UINT64
    ensures TimestampFromInverted(inv) == MAX_INT64 - inv && IsInt64(MAX_INT64 - inv)
    ensures InvertedTimestamp(TimestampFromInverted(inv)) == inv
  {
    if inv > MAX_INT64 {
      assert ToInt64(inv) == inv - TWO_64;
      assert ToInt64(MAX_INT64 - inv + TWO_64) == MAX_INT64 - inv;
    }
    InvertedTimestampExact(MAX_INT64 - inv);
  }

  /* ---- Layout ---- */

  datatype Cell = Cell(row: bytes, family: bytes, qualifier: bytes, ts: int)

  /** The cells that have a key: a family length fits one byte, a qualifier length two. */
  predicate ValidCell(c: Cell) {
    |c.family| <= 255 && |c.qualifier| <= 65535 && IsInt64(c.ts)
  }

  function EscapeByte(b: byte): bytes { if b == 0 then [0, 255] else [b] }

  /** 0x00 becomes 0x00 0xFF. */
  function Escape(row: bytes): bytes
    decreases |row|
  {
    if row == [] then [] else EscapeByte(row[0]) + Escape(row[1..])
  }

  function RowPrefix(row: bytes): bytes { Escape(row) + [0, 0] }

  /** As the encoder does, an over-long family yields the nil prefix. */
  function FamilyPrefix(rowPrefix: bytes, family: bytes): bytes {
    if |family| > 255 then [] else rowPrefix + [|family|] + family + [0]
  }

  function ColumnPrefix(familyPrefix: bytes, qualifier: bytes): bytes {
    if |qualifier| > 65535 then [] else familyPrefix + BigEndian(|qualifier|, 2) + qualifier + [0]
  }

  function ColumnOf(row: bytes, family: bytes, qualifier: bytes): bytes {
    ColumnPrefix(FamilyPrefix(RowPrefix(row), family), qualifier)
  }

  function TimestampKey(columnPrefix: bytes, inv: nat): bytes { columnPrefix + BigEndian(inv, 8) }

  function CellKey(c: Cell): bytes {
    TimestampKey(ColumnOf(c.row, c.family, c.qualifier), InvertedTimestamp(c.ts))
  }

  /** What follows the row prefix, and what follows the family prefix. */
  function FamilyTail(family: bytes, qualifier: bytes, ts: int): bytes
    requires |family| <= 255
  {
    [|family|] + (family + ([0] + QualifierTail(qualifier, ts)))
  }

  function QualifierTail(qualifier: bytes, ts: int): bytes {
    BigEndian(|qualifier|, 2) + (qualifier + ([0] + BigEndian(InvertedTimestamp(ts), 8)))
  }

  lemma CellKeySplits(c: Cell)
    requires ValidCell(c)
    ensures CellKey(c) == RowPrefix(c.row) + FamilyTail(c.family, c.qualifier, c.ts)
    ensures CellKey(c) == FamilyPrefix(RowPrefix(c.row), c.family) + QualifierTail(c.qualifier, c.ts)
  {
    var rp, fp := RowPrefix(c.row), FamilyPrefix(RowPrefix(c.row), c.family);
    Regroup(fp, BigEndian(|c.qualifier|, 2), c.qualifier, BigEndian(InvertedTimestamp(c.ts), 8));
    Regroup(rp, [|c.family|], c.family, QualifierTail(c.qualifier, c.ts));
  }

  lemma Regroup(prefix: bytes, length: bytes, s: bytes, rest: bytes)
    ensures prefix + length + s + [0] + rest == prefix + (length + (s + ([0] + rest)))
  {
  }

  /* ---- Row keys: the escape is order preserving and prefix free ---- */

  /** Different rows are ordered as raw keys, whatever follows their prefixes. */
  lemma {:induction false} RowPrefixOrder(a: bytes, x: bytes, b: bytes, y: bytes)
    requires a != b
    ensures Less(RowPrefix(a) + x, RowPrefix(b) + y) <==> Less(a, b)
    ensures !(RowPrefix(a) <= RowPrefix(b) + y)
    decreases |a|
  {
    var ka, kb := RowPrefix(a) + x, RowPrefix(b) + y;
    if a == [] {
      RowPrefixHead(b);
      assert ka[0] == 0 && ka[1] == 0;
      LessDecided(ka, kb, if b[0] == 0 then 1 else 0);
    } else if b == [] {
      RowPrefixHead(a);
      assert kb[0] == 0 && kb[1] == 0;
      LessDecided(kb, ka, if a[0] == 0 then 1 else 0);
    } else {
      RowPrefixHead(a);
      RowPrefixHead(b);
      var ea, eb := EscapeByte(a[0]), EscapeByte(b[0]);
      assert ka == ea + (RowPrefix(a[1..]) + x) && kb == eb + (RowPrefix(b[1..]) + y);
      if a[0] == b[0] {
        assert a == [a[0]] + a[1..] && b == [b[0]] + b[1..];
        RowPrefixOrder(a[1..], x, b[1..], y);
        LessCommonPrefix(ea, RowPrefix(a[1..]) + x, RowPrefix(b[1..]) + y);
      }
    }
  }

  lemma RowPrefixHead(a: bytes)
    requires a != []
    ensures RowPrefix(a) == EscapeByte(a[0]) + RowPrefix(a[1..])
  {
  }

  lemma {:induction false} LessDecided(a: bytes, b: bytes, k: nat)
    requires k < |a| && k < |b| && a[..k] == b[..k] && a[k] < b[k]
    ensures Less(a, b) && !Less(b, a)
  {
    assert a == a[..k] + a[k..] && b == a[..k] + b[k..];
    LessCommonPrefix(a[..k], a[k..], b[k..]);
    LessAsymmetric(a, b);
  }

  /** No row prefix is a prefix of another row's keys. */
  lemma RowPrefixFree(a: bytes, x: bytes, b: bytes, y: bytes)
    ensures RowPrefix(a) + x == RowPrefix(b) + y <==> a == b && x == y
    ensures RowPrefix(a) <= RowPrefix(b) + y <==> a == b
  {
    if a != b {
      RowPrefixOrder(a, x, b, y);
      assert RowPrefix(a) <= RowPrefix(a) + x;
    } else if x != y {
      assert (RowPrefix(a) + x)[|RowPrefix(a)|..] == x;
      assert (RowPrefix(b) + y)[|RowPrefix(a)|..] == y;
    }
  }

  /* ---- Length-prefixed fields ---- */

  /** (length, bytes) order, the order of families and of qualifiers. */
  predicate ShortLex(a: bytes, b: bytes) { |a| < |b| || (|a| == |b| && Less(a, b)) }

  /** A field is its w-byte length, its bytes and a zero byte. */
  function Field(s: bytes, w: nat, rest: bytes): bytes { BigEndian(|s|, w) + (s + ([0] + rest)) }

  lemma FieldOrder(a: bytes, x: bytes, b: bytes, y: bytes, w: nat)
    requires |a| < Pow256(w) && |b| < Pow256(w)
    ensures Less(Field(a, w, x), Field(b, w, y)) <==> ShortLex(a, b) || (a == b && Less(x, y))
    ensures Field(a, w, x) == Field(b, w, y) <==> a == b && x == y
  {
    BigEndianOrder(|a|, |b|, w);
    var la, lb := BigEndian(|a|, w), BigEndian(|b|, w);
    LessIrreflexive(a);
    if |a| != |b| {
      LessFixedWidth(la, a + ([0] + x), lb, b + ([0] + y));
      assert Field(a, w, x)[..w] == la && Field(b, w, y)[..w] == lb;
    } else {
      LessCommonPrefix(la, a + ([0] + x), b + ([0] + y));
      assert Field(a, w, x)[w..w + |a|] == a && Field(b, w, y)[w..w + |a|] == b;
      if a == b {
        LessCommonPrefix(a, [0] + x, [0] + y);
        LessCommonPrefix([0], x, y);
        assert Field(a, w, x)[w + |a| + 1..] == x && Field(b, w, y)[w + |a| + 1..] == y;
      } else {
        LessFixedWidth(a, [0] + x, b, [0] + y);
      }
    }
  }

  /** A longer or different field never starts with a shorter one's bytes. */
  lemma FieldPrefixFree(a: bytes, b: bytes, y: bytes, w: nat)
    requires |a| < Pow256(w) && |b| < Pow256(w)
    ensures Field(a, w, []) <= Field(b, w, y) <==> a == b
  {
    BigEndianOrder(|a|, |b|, w);
    if Field(a, w, []) <= Field(b, w, y) {
      assert Field(a, w, [])[..w] == BigEndian(|a|, w) && Field(b, w, y)[..w] == BigEndian(|b|, w);
      assert Field(a, w, [])[w..w + |a|] == a && Field(b, w, y)[w..w + |a|] == b;
    }
    if a == b { assert Field(b, w, y) == Field(a, w, []) + y; }
  }

  lemma PrefixesAreFields(p: bytes, s: bytes)
    ensures |s| <= 255 ==> FamilyPrefix(p, s) == p + Field(s, 1, [])
    ensures |s| <= 65535 ==> ColumnPrefix(p, s) == p + Field(s, 2, [])
  {
    Regroup(p, [|s| % 256], s, []);
    Regroup(p, BigEndian(|s|, 2), s, []);
    assert p + BigEndian(|s|, 2) + s + [0] + [] == p + BigEndian(|s|, 2) + s + [0];
    if |s| <= 255 {
      assert BigEndian(|s|, 1) == [|s|] by { assert BigEndian(|s| / 256, 0) == []; }
      assert p + [|s|] + s + [0] + [] == p + [|s|] + s + [0];
    }
  }

  lemma TailsAreFields(family: bytes, qualifier: bytes, ts: int)
    requires |family| <= 255 && |qualifier| <= 65535
    ensures Pow256(1) == 256 && Pow256(2) == 65536 && Pow256(8) == TWO_64
    ensures FamilyTail(family, qualifier, ts) == Field(family, 1, QualifierTail(qualifier, ts))
    ensures QualifierTail(qualifier, ts) == Field(qualifier, 2, BigEndian(InvertedTimestamp(ts), 8))
  {
    PowersOf256();
    assert BigEndian(|family|, 1) == [|family|] by { assert BigEndian(|family| / 256, 0) == []; }
  }

  lemma PowersOf256()
    ensures Pow256(1) == 256 && Pow256(2) == 65536 && Pow256(8) == TWO_64
  {
    assert Pow256(4) == 0x1_0000_0000 by { assert Pow256(3) == 0x100_0000 by { assert Pow256(2) == 65536; } }
    assert Pow256(6) == 0x1_0000_0000_0000 by { assert Pow256(5) == 0x100_0000_0000; }
  }

  /* ---- The order theorem ---- */

  /** Rows ascending, families and qualifiers by (length, bytes), newest timestamp first. */
  predicate CellLess(c: Cell, d: Cell) {
    || Less(c.row, d.row)
    || (c.row == d.row && ShortLex(c.family, d.family))
    || (c.row == d.row && c.family == d.family && ShortLex(c.qualifier, d.qualifier))
    || (c.row == d.row && c.family == d.family && c.qualifier == d.qualifier && c.ts > d.ts)
  }

  lemma OrderEmbedding(c: Cell, d: Cell)
    requires ValidCell(c) && ValidCell(d)
    ensures Less(CellKey(c), CellKey(d)) <==> CellLess(c, d)
    ensures CellKey(c) == CellKey(d) <==> c == d
  {
    CellKeySplits(c);
    CellKeySplits(d);
    var tc, td := FamilyTail(c.family, c.qualifier, c.ts), FamilyTail(d.family, d.qualifier, d.ts);
    RowPrefixFree(c.row, tc, d.row, td);
    LessIrreflexive(c.row);
    if c.row != d.row {
      RowPrefixOrder(c.row, tc, d.row, td);
    } else {
      LessCommonPrefix(RowPrefix(c.row), tc, td);
      FamilyTailOrder(c, d);
    }
  }

  lemma FamilyTailOrder(c: Cell, d: Cell)
    requires ValidCell(c) && ValidCell(d) && c.row == d.row
    ensures Less(FamilyTail(c.family, c.qualifier, c.ts), FamilyTail(d.family, d.qualifier, d.ts)) <==> CellLess(c, d)
    ensures FamilyTail(c.family, c.qualifier, c.ts) == FamilyTail(d.family, d.qualifier, d.ts) ==> c == d
  {
    TailsAreFields(c.family, c.qualifier, c.ts);
    TailsAreFields(d.family, d.qualifier, d.ts);
    var qc, qd := QualifierTail(c.qualifier, c.ts), QualifierTail(d.qualifier, d.ts);
    var ic, id := InvertedTimestamp(c.ts), InvertedTimestamp(d.ts);
    FieldOrder(c.family, qc, d.family, qd, 1);
    FieldOrder(c.qualifier, BigEndian(ic, 8), d.qualifier, BigEndian(id, 8), 2);
    InvertedTimestampExact(c.ts);
    InvertedTimestampExact(d.ts);
    BigEndianOrder(ic, id, 8);
    LessIrreflexive(c.row);
    LessIrreflexive(c.family);
    LessIrreflexive(c.qualifier);
  }

  /* ---- Row prefix encoder ---- */

  lemma EscapeAppend(row: bytes, b: byte)
    ensures Escape(row + [b]) == Escape(row) + EscapeByte(b)
    decreases |row|
  {
    if row == [] {
      assert row + [b] == [b] && Escape([b]) == EscapeByte(b) + Escape([b][1..]);
    } else {
      EscapeAppend(row[1..], b);
      assert (row + [b])[1..] == row[1..] + [b];
    }
  }

  function Nulls(row: bytes): nat
    decreases |row|
  {
    if row == [] then 0 else (if row[|row| - 1] == 0 then 1 else 0) + Nulls(row[..|row| - 1])
  }

  lemma EscapeLength(row: bytes)
    ensures |Escape(row)| == |row| + Nulls(row)
    ensures 0 !in row ==> Escape(row) == row
    decreases |row|
  {
    if row != [] {
      var init := row[..|row| - 1];
      EscapeLength(init);
      EscapeAppend(init, row[|row| - 1]);
      assert row == init + [row[|row| - 1]];
    }
  }

  lemma EscapePrefixLength(row: bytes, i: nat)
    requires i < |row|
    ensures Escape(row[..i + 1]) == Escape(row[..i]) + EscapeByte(row[i])
    ensures |Escape(row[..i + 1])| <= |Escape(row)|
    ensures Nulls(row[..i + 1]) == Nulls(row[..i]) + if row[i] == 0 then 1 else 0
    decreases |row| - i
  {
    assert row[..i + 1] == row[..i] + [row[i]];
    assert row[..i + 1][..i] == row[..i];
    EscapeAppend(row[..i], row[i]);
    if i + 1 < |row| { EscapePrefixLength(row, i + 1); } else { assert row[..i + 1] == row; }
  }

  method CountNulls(row: bytes) returns (n: nat)
    ensures n == Nulls(row)
  {
    n := 0;
    for i := 0 to |row|
      invariant n == Nulls(row[..i])
    {
      EscapePrefixLength(row, i);
      if row[i] == 0 { n := n + 1; }
    }
    assert row[..|row|] == row;
  }

  /** The filling pass: every null becomes two bytes. */
  method FillEscaped(row: bytes, buf: array<byte>)
    requires buf.Length >= |Escape(row)|
    modifies buf
    ensures buf[..|Escape(row)|] == Escape(row)
  {
    var pos := 0;
    for i := 0 to |row|
      invariant pos == |Escape(row[..i])| <= |Escape(row)|
      invariant buf[..pos] == Escape(row[..i])
    {
      EscapePrefixLength(row, i);
      ghost var done := buf[..pos];
      if row[i] == 0 {
        buf[pos] := 0;
        buf[pos + 1] := 255;
        pos := pos + 2;
        assert buf[..pos] == done + [0, 255];
      } else {
        buf[pos] := row[i];
        pos := pos + 1;
        assert buf[..pos] == done + [row[i]];
      }
    }
    assert row[..|row|] == row;
  }

  /** The escaping path: a counting pass sizes the buffer, a second pass fills it. */
  method EncodeRowPrefixEscaped(row: bytes) returns (key: bytes)
    ensures key == RowPrefix(row)
  {
    var nullCount := CountNulls(row);
    EscapeLength(row);
    var escapedLen := |row| + nullCount;
    var buf := new byte[escapedLen + 2](_ => 0);
    FillEscaped(row, buf);
    ghost var done := buf[..escapedLen];
    buf[escapedLen] := 0;
    buf[escapedLen + 1] := 0;
    assert buf[..escapedLen] == done;
    key := buf[..];
  }

  /** The fast path for rows without a null byte agrees with the escaping path. */
  method EncodeRowPrefix(row: bytes) returns (key: bytes)
    ensures key == RowPrefix(row)
  {
    if 0 in row {
      key := EncodeRowPrefixEscaped(row);
    } else {
      EscapeLength(row);
      var buf := new byte[|row| + 2](i => if 0 <= i < |row| then row[i] else 0);
      key := buf[..];
      assert key == row + [0, 0];
    }
  }
}
