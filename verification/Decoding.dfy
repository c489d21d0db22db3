/** The two key decoders of pkg/bigtable/encoding.go against one reference: the decoding of a
    byte string is the cell whose encoding it is, if there is one. */
module Decoding {
  import opened Bytes
  import opened Encoding

  ghost predicate IsCellKey(key: bytes) { exists c :: ValidCell(c) && CellKey(c) == key }

  ghost function Decoded(key: bytes): (r: Option<Cell>)
    ensures r.Some? <==> IsCellKey(key)
    ensures r.Some? ==> ValidCell(r.value) && CellKey(r.value) == key
  {
    if IsCellKey(key) then
      var c :| ValidCell(c) && CellKey(c) == key;
      Some(c)
    else None
  }

  lemma DecodeEncode(c: Cell)
    requires ValidCell(c)
    ensures Decoded(CellKey(c)) == Some(c)
  {
    OrderEmbedding(c, Decoded(CellKey(c)).value);
  }

  /* ---- Scanning the escaped row key ---- */

  /** Splits a key at its first unescaped 0x00 0x00. */
  function ParseRow(key: bytes): Option<(bytes, bytes)>
    decreases |key|
  {
    if |key| == 0 then None
    else if key[0] != 0 then Push(key[0], ParseRow(key[1..]))
    else if |key| == 1 then None
    else if key[1] == 255 then Push(0, ParseRow(key[2..]))
    else if key[1] == 0 then Some(([], key[2..]))
    else None
  }

  function Push(b: byte, r: Option<(bytes, bytes)>): Option<(bytes, bytes)> {
    match r
    case None => None
    case Some((row, rest)) => Some(([b] + row, rest))
  }

  lemma {:induction false} ParseRowExact(key: bytes)
    ensures ParseRow(key).Some? ==> key == RowPrefix(ParseRow(key).value.0) + ParseRow(key).value.1
    decreases |key|
  {
    if ParseRow(key).Some? {
      if key[0] != 0 {
        ParseRowExact(key[1..]);
        RowPrefixPush(key[0], ParseRow(key[1..]).value.0, ParseRow(key).value.1);
        assert key == [key[0]] + key[1..];
      } else if key[1] == 255 {
        ParseRowExact(key[2..]);
        RowPrefixPush(0, ParseRow(key[2..]).value.0, ParseRow(key).value.1);
        assert key == [0, 255] + key[2..];
      } else {
        assert RowPrefix([]) == [0, 0];
        assert key == [0, 0] + key[2..];
      }
    }
  }

  lemma RowPrefixPush(b: byte, row: bytes, rest: bytes)
    ensures RowPrefix([b] + row) + rest == EscapeByte(b) + (RowPrefix(row) + rest)
  {
    RowPrefixHead([b] + row);
    assert ([b] + row)[1..] == row;
  }

  lemma {:induction false} ParseRowComplete(row: bytes, rest: bytes)
    ensures ParseRow(RowPrefix(row) + rest) == Some((row, rest))
    decreases |row|
  {
    var key := RowPrefix(row) + rest;
    if row == [] {
      assert key == [0, 0] + rest;
    } else {
      ParseRowComplete(row[1..], rest);
      RowPrefixHead(row);
      var tail := RowPrefix(row[1..]) + rest;
      assert key == EscapeByte(row[0]) + tail;
      assert key[|EscapeByte(row[0])|..] == tail;
      assert row == [row[0]] + row[1..];
    }
  }

  /** What a parsed prefix contributes to a parse. */
  function Prepend(row: bytes, r: Option<(bytes, bytes)>): Option<(bytes, bytes)> {
    match r
    case None => None
    case Some((more, rest)) => Some((row + more, rest))
  }

  lemma ParseStep(row: bytes, b: byte, r: Option<(bytes, bytes)>)
    ensures Prepend(row, Push(b, r)) == Prepend(row + [b], r)
  {
    if r.Some? { assert row + ([b] + r.value.0) == row + [b] + r.value.0; }
  }

  /** The scan has consumed the escape of `row`, with esc escapes, up to position end. */
  ghost predicate Scanned(key: bytes, end: nat, row: bytes, esc: nat) {
    && end <= |key| && key[..end] == Escape(row) && esc == Nulls(row)
    && ParseRow(key) == Prepend(row, ParseRow(key[end..]))
  }

  lemma ScanStart(key: bytes)
    ensures Scanned(key, 0, [], 0)
  {
    assert key[0..] == key;
    if ParseRow(key).Some? { assert [] + ParseRow(key).value.0 == ParseRow(key).value.0; }
  }

  lemma ScanStep(key: bytes, end: nat, row: bytes, esc: nat, b: byte)
    requires Scanned(key, end, row, esc) && EscapeByte(b) <= key[end..]
    ensures Scanned(key, end + |EscapeByte(b)|, row + [b], esc + if b == 0 then 1 else 0)
  {
    var n, tail := |EscapeByte(b)|, key[end..];
    assert tail[n..] == key[end + n..] && key[..end + n] == key[..end] + EscapeByte(b);
    assert ParseRow(tail) == Push(b, ParseRow(tail[n..]));
    ParseStep(row, b, ParseRow(tail[n..]));
    EscapeAppend(row, b);
    NullsAppend(row, b);
  }

  lemma ScanEnd(key: bytes, end: nat, row: bytes, esc: nat)
    requires Scanned(key, end, row, esc)
    ensures [0, 0] <= key[end..] ==> ParseRow(key) == Some((row, key[end + 2..]))
    ensures end == |key| ==> ParseRow(key) == None
    ensures end + 1 == |key| && key[end] == 0 ==> ParseRow(key) == None
    ensures end + 1 < |key| && key[end] == 0 && key[end + 1] !in [0, 255] ==> ParseRow(key) == None
  {
    hide ParseRow, Escape, Nulls;
    var tail := key[end..];
    ParseEnd(tail);
    if [0, 0] <= tail {
      assert tail[2..] == key[end + 2..] && row + [] == row;
    }
  }

  /** Where a parse ends, one way or the other. */
  lemma ParseEnd(tail: bytes)
    ensures [0, 0] <= tail ==> ParseRow(tail) == Some(([], tail[2..]))
    ensures tail == [] || (|tail| == 1 && tail[0] == 0) ==> ParseRow(tail) == None
    ensures |tail| > 1 && tail[0] == 0 && tail[1] !in [0, 255] ==> ParseRow(tail) == None
  {
  }

  /** The scan loop: finds the terminator at `end` and counts the escapes before it. */
  method ScanRow(key: bytes) returns (ok: bool, end: nat, esc: nat, ghost row: bytes)
    ensures ok <==> ParseRow(key).Some?
    ensures ok ==> end + 2 <= |key| && ParseRow(key) == Some((row, key[end + 2..]))
    ensures ok ==> key[..end] == Escape(row) && esc == Nulls(row)
  {
    ok, end, esc, row := false, 0, 0, [];
    ScanStart(key);
    while true
      invariant Scanned(key, end, row, esc)
      decreases |key| - end
    {
      ScanEnd(key, end, row, esc);
      if end >= |key| { return; }
      if key[end] != 0 {
        ScanStep(key, end, row, esc, key[end]);
        row, end := row + [key[end]], end + 1;
        continue;
      }
      if end + 1 >= |key| { return; }
      if key[end + 1] == 255 {
        ScanStep(key, end, row, esc, 0);
        esc, row, end := esc + 1, row + [0], end + 2;
        continue;
      }
      ok := key[end + 1] == 0;
      return;
    }
  }

  lemma NullsAppend(row: bytes, b: byte)
    ensures Nulls(row + [b]) == Nulls(row) + if b == 0 then 1 else 0
  {
    assert (row + [b])[..|row|] == row;
  }

  /** The unescaping loop has read src bytes and written the first dst bytes of the row. */
  ghost predicate Unescaping(escaped: bytes, src: nat, row: bytes, dst: nat, buf: bytes) {
    && src <= |escaped| && dst <= |row| == |buf|
    && escaped[src..] == Escape(row[dst..]) && buf[..dst] == row[..dst]
  }

  /** What one iteration reads at src is the next byte of the row. */
  lemma UnescapeStep(escaped: bytes, src: nat, row: bytes, dst: nat, buf: bytes)
    requires Unescaping(escaped, src, row, dst, buf) && src < |escaped|
    ensures dst < |row|
    ensures (src + 1 < |escaped| && escaped[src] == 0 && escaped[src + 1] == 255) <==> row[dst] == 0
    ensures row[dst] != 0 ==> escaped[src] == row[dst]
    ensures Unescaping(escaped, src + |EscapeByte(row[dst])|, row, dst + 1, buf[dst := row[dst]])
  {
    var rest, e := row[dst..], escaped[src..];
    assert e == EscapeByte(rest[0]) + Escape(rest[1..]);
    var n := |EscapeByte(rest[0])|;
    assert e[..n] == EscapeByte(rest[0]) && e[n..] == Escape(rest[1..]);
    assert rest[1..] == row[dst + 1..] && e[n..] == escaped[src + n..];
    assert e[0] == escaped[src];
    assert row[..dst + 1] == row[..dst] + [row[dst]];
    assert buf[dst := row[dst]][..dst + 1] == buf[..dst] + [row[dst]];
  }

  lemma UnescapeStart(escaped: bytes, row: bytes, buf: bytes)
    requires escaped == Escape(row) && |buf| == |row|
    ensures Unescaping(escaped, 0, row, 0, buf)
  {
    assert row[0..] == row && escaped[0..] == escaped;
  }

  lemma UnescapeEnd(escaped: bytes, row: bytes, dst: nat, buf: bytes)
    requires Unescaping(escaped, |escaped|, row, dst, buf)
    ensures buf == row
  {
    EscapeLength(row[dst..]);
  }

  /** The unescaping loop of DecodeCellKey, filling a fresh buffer. */
  method Unescape(escaped: bytes, esc: nat, ghost row: bytes) returns (r: bytes)
    requires escaped == Escape(row) && esc == Nulls(row)
    ensures r == row
  {
    EscapeLength(row);
    var buf := new byte[|escaped| - esc](_ => 0);
    var src, dst := 0, 0;
    UnescapeStart(escaped, row, buf[..]);
    while src < |escaped|
      invariant Unescaping(escaped, src, row, dst, buf[..])
    {
      UnescapeStep(escaped, src, row, dst, buf[..]);
      ghost var next := buf[..][dst := row[dst]];
      if src + 1 < |escaped| && escaped[src] == 0 && escaped[src + 1] == 255 {
        buf[dst] := 0;
        src := src + 1;
      } else {
        buf[dst] := escaped[src];
      }
      assert buf[..] == next;
      src, dst := src + 1, dst + 1;
    }
    UnescapeEnd(escaped, row, dst, buf[..]);
    r := buf[..];
  }

  /* ---- The fields after the row ---- */

  ghost predicate IsTail(s: bytes) {
    exists f: bytes, q: bytes, ts: int :: |f| <= 255 && |q| <= 65535 && IsInt64(ts) && s == FamilyTail(f, q, ts)
  }

  /** The decoder's checks: both lengths lead to a zero byte and eight bytes remain. */
  predicate LooksLikeTail(s: bytes) {
    |s| >= 1 && s[0] + 2 <= |s| && s[1 + s[0]] == 0 && LooksLikeQualifierTail(s[2 + s[0]..])
  }

  predicate LooksLikeQualifierTail(t: bytes) {
    |t| >= 2 && |t| == FromBigEndian(t[..2]) + 11 && t[2 + FromBigEndian(t[..2])] == 0
  }

  lemma QualifierTailShape(q: bytes, ts: int)
    requires |q| <= 65535
    ensures LooksLikeQualifierTail(QualifierTail(q, ts))
  {
    var t := QualifierTail(q, ts);
    PowersOf256();
    BigEndianRoundTrip(|q|, 2);
    assert t[..2] == BigEndian(|q|, 2);
    assert t[2..] == q + ([0] + BigEndian(InvertedTimestamp(ts), 8));
    assert t[2..][|q|] == 0;
  }

  lemma TailShape(f: bytes, q: bytes, ts: int)
    requires |f| <= 255 && |q| <= 65535
    ensures LooksLikeTail(FamilyTail(f, q, ts))
  {
    var s := FamilyTail(f, q, ts);
    QualifierTailShape(q, ts);
    assert s[1..] == f + ([0] + QualifierTail(q, ts));
    assert s[1..][|f|] == 0;
    assert s[2 + |f|..] == QualifierTail(q, ts);
  }

  /** Fields that pass the decoder's checks re-encode to the bytes they were read from. */
  lemma QualifierTailRebuild(t: bytes, m: nat)
    requires LooksLikeQualifierTail(t) && m == FromBigEndian(t[..2])
    ensures m <= 65535 && IsInt64(TimestampFromInverted(FromBigEndian(t[3 + m..])))
    ensures t == QualifierTail(t[2..2 + m], TimestampFromInverted(FromBigEndian(t[3 + m..])))
  {
    PowersOf256();
    FromBigEndianRoundTrip(t[..2]);
    FromBigEndianRoundTrip(t[3 + m..]);
    TimestampFromInvertedExact(FromBigEndian(t[3 + m..]));
    assert t[2..] == t[2..2 + m] + ([t[2 + m]] + t[3 + m..]);
    assert t == t[..2] + t[2..];
  }

  lemma TailRebuild(s: bytes, family: bytes, qualifier: bytes, ts: int)
    requires |s| >= 1 && s[0] + 2 <= |s| && s[1 + s[0]] == 0 && family == s[1..1 + s[0]]
    requires s[2 + s[0]..] == QualifierTail(qualifier, ts)
    ensures s == FamilyTail(family, qualifier, ts)
  {
    var n: nat := s[0];
    SplitAround(s, 1 + n);
    assert n == |family|;
  }

  lemma SplitAround(s: bytes, i: nat)
    requires 1 <= i < |s|
    ensures s == [s[0]] + (s[1..i] + ([s[i]] + s[i + 1..]))
  {
    assert s[1..] == s[1..i] + s[i..] && s[i..] == [s[i]] + s[i + 1..];
  }

  lemma TailsAreRecognised(s: bytes)
    ensures IsTail(s) ==> LooksLikeTail(s)
  {
    if IsTail(s) {
      var f: bytes, q: bytes, ts: int :| |f| <= 255 && |q| <= 65535 && IsInt64(ts) && s == FamilyTail(f, q, ts);
      TailShape(f, q, ts);
    }
  }

  method ParseQualifierTail(t: bytes) returns (ok: bool, qualifier: bytes, ts: int)
    ensures ok <==> LooksLikeQualifierTail(t)
    ensures ok ==> |qualifier| <= 65535 && IsInt64(ts) && t == QualifierTail(qualifier, ts)
  {
    ok, qualifier, ts := false, [], 0;
    if 2 > |t| { return; }
    var qualLen := FromBigEndian(t[..2]);
    if 2 + qualLen >= |t| || t[2 + qualLen] != 0 { return; }
    qualifier := t[2..2 + qualLen];
    if 3 + qualLen + 8 != |t| { return; }
    ts := TimestampFromInverted(FromBigEndian(t[3 + qualLen..]));
    QualifierTailRebuild(t, qualLen);
    ok := true;
  }

  /** Parses family, qualifier and timestamp from what follows the row terminator. */
  method ParseTail(s: bytes) returns (ok: bool, family: bytes, qualifier: bytes, ts: int)
    ensures ok ==> |family| <= 255 && |qualifier| <= 65535 && IsInt64(ts)
    ensures ok ==> s == FamilyTail(family, qualifier, ts)
    ensures !ok ==> !IsTail(s)
  {
    ok, family, qualifier, ts := false, [], [], 0;
    TailsAreRecognised(s);
    if |s| == 0 { return; }
    var famLen: nat := s[0];
    if 1 + famLen >= |s| || s[1 + famLen] != 0 { return; }
    family := s[1..1 + famLen];
    ok, qualifier, ts := ParseQualifierTail(s[2 + famLen..]);
    if ok { TailRebuild(s, family, qualifier, ts); }
  }

  /** A key decodes to the row its terminator delimits and the fields its tail holds. */
  lemma DecodeByParts(key: bytes)
    ensures Decoded(key).Some? <==> ParseRow(key).Some? && IsTail(ParseRow(key).value.1)
    ensures Decoded(key).Some? ==> Decoded(key).value.row == ParseRow(key).value.0
    ensures forall f: bytes, q: bytes, ts: int ::
      |f| <= 255 && |q| <= 65535 && IsInt64(ts) && ParseRow(key).Some? && ParseRow(key).value.1 == FamilyTail(f, q, ts)
      ==> Decoded(key) == Some(Cell(ParseRow(key).value.0, f, q, ts))
  {
    if Decoded(key).Some? {
      var c := Decoded(key).value;
      CellKeySplits(c);
      ParseRowComplete(c.row, FamilyTail(c.family, c.qualifier, c.ts));
    }
    forall f, q, ts | |f| <= 255 && |q| <= 65535 && IsInt64(ts) && ParseRow(key).Some? && ParseRow(key).value.1 == FamilyTail(f, q, ts)
      ensures Decoded(key) == Some(Cell(ParseRow(key).value.0, f, q, ts))
    {
      var c := Cell(ParseRow(key).value.0, f, q, ts);
      ParseRowExact(key);
      CellKeySplits(c);
      DecodeEncode(c);
    }
  }

  method DecodeCellKey(key: bytes) returns (r: Option<Cell>)
    ensures r == Decoded(key)
  {
    DecodeByParts(key);
    var ok, end, esc, row := ScanRow(key);
    if !ok { return None; }
    var rowKey;
    if esc > 0 {
      rowKey := Unescape(key[..end], esc, row);
    } else {
      EscapeLength(row);
      NoNulls(row);
      rowKey := key[..end];
    }
    var tailOk, family, qualifier, ts := ParseTail(key[end + 2..]);
    if !tailOk { return None; }
    return Some(Cell(rowKey, family, qualifier, ts));
  }

  lemma NoNulls(row: bytes)
    ensures Nulls(row) == 0 ==> 0 !in row
    decreases |row|
  {
    if row != [] {
      NoNulls(row[..|row| - 1]);
      assert row == row[..|row| - 1] + [row[|row| - 1]];
    }
  }

  /** The reusable decoder: whatever earlier calls left in its buffers, a call returns what
      DecodeCellKey returns. */
  class CellDecoder {
    var rowKeyBuf: bytes
    var qualifierBuf: bytes

    constructor ()
      ensures rowKeyBuf == [] && qualifierBuf == []
    {
      rowKeyBuf, qualifierBuf := [], [];
    }

    /** The unescaping loop, filling the resized buffer in place. */
    method UnescapeRow(escaped: bytes, esc: nat, ghost row: bytes)
      requires escaped == Escape(row) && esc == Nulls(row)
      modifies `rowKeyBuf
      ensures rowKeyBuf == row
    {
      EscapeLength(row);
      rowKeyBuf := seq(|escaped| - esc, _ => 0);
      var src, dst := 0, 0;
      UnescapeStart(escaped, row, rowKeyBuf);
      while src < |escaped|
        invariant Unescaping(escaped, src, row, dst, rowKeyBuf)
      {
        UnescapeStep(escaped, src, row, dst, rowKeyBuf);
        if src + 1 < |escaped| && escaped[src] == 0 && escaped[src + 1] == 255 {
          rowKeyBuf := rowKeyBuf[dst := 0];
          src := src + 1;
        } else {
          rowKeyBuf := rowKeyBuf[dst := escaped[src]];
        }
        src, dst := src + 1, dst + 1;
      }
      UnescapeEnd(escaped, row, dst, rowKeyBuf);
    }

    method Decode(key: bytes) returns (r: Option<Cell>)
      modifies this
      ensures r == Decoded(key)
      ensures r.Some? ==> qualifierBuf == r.value.qualifier
      ensures r.Some? && 0 in r.value.row ==> rowKeyBuf == r.value.row
    {
      DecodeByParts(key);
      var ok, end, esc, row := ScanRow(key);
      if !ok { return None; }
      EscapeLength(row);
      NoNulls(row);
      var rowKey;
      if esc > 0 {
        UnescapeRow(key[..end], esc, row);
        rowKey := rowKeyBuf;
      } else {
        rowKey := key[..end];
      }
      var tailOk, family, qualifier, ts := ParseTail(key[end + 2..]);
      if !tailOk { return None; }
      qualifierBuf := qualifier;
      return Some(Cell(rowKey, family, qualifierBuf, ts));
    }
  }
}
