/** What single filters keep, said on the fields of the cells (pkg/bigtable/filter.go), where that
    differs from what the protocol documents (proto/google/bigtable/v2/data.proto), and what a tree
    says as a whole: whether it compiles, which repetitions it drops, whether it strips values. */
module FilterLeaves {
  import opened Bytes
  import opened Encoding
  import opened Bounds
  import opened Filter
  import opened FilterMeaning
  import opened Emission

  /** The cells of a row that satisfy p, in order. */
  function Where(row: Row, p: CellInfo -> bool): Row
    decreases |row|
  {
    if row == [] then [] else (if p(row[0]) then [row[0]] else []) + Where(row[1..], p)
  }

  predicate IsLeaf(f: Filter) {
    && !f.Chain? && !f.Interleave? && !f.Condition?
    && !f.CellsPerRowOffset? && !f.CellsPerRowLimit? && !f.CellsPerColumnLimit?
  }

  lemma {:induction false} LeafKeeps(f: Filter, row: Row, p: CellInfo -> bool)
    requires IsLeaf(f) && forall c :: Test(f, c) <==> p(c)
    ensures Kept(f, row) == Where(row, p)
    decreases |row|
  {
    hide Test;
    if row != [] {
      LeafKeeps(f, row[1..], p);
      assert Mask(f, row)[1..] == Mask(f, row[1..]);
    }
  }

  /** A regular expression is matched against the field it is named for. */
  lemma RegexKeeps(m: bytes -> bool, row: Row)
    ensures Kept(RowKeyRegex(Compiled(m)), row) == Where(row, (c: CellInfo) => m(c.cell.row))
    ensures Kept(FamilyRegex(Compiled(m)), row) == Where(row, (c: CellInfo) => m(c.cell.family))
    ensures Kept(QualifierRegex(Compiled(m)), row) == Where(row, (c: CellInfo) => m(c.cell.qualifier))
    ensures Kept(ValueRegex(Compiled(m)), row) == Where(row, (c: CellInfo) => m(c.value))
  {
    hide Kept, Where;
    LeafKeeps(RowKeyRegex(Compiled(m)), row, (c: CellInfo) => m(c.cell.row));
    LeafKeeps(FamilyRegex(Compiled(m)), row, (c: CellInfo) => m(c.cell.family));
    LeafKeeps(QualifierRegex(Compiled(m)), row, (c: CellInfo) => m(c.cell.qualifier));
    LeafKeeps(ValueRegex(Compiled(m)), row, (c: CellInfo) => m(c.value));
  }

  /* ---- Ranges ---- */

  /** An end without a key, or with an empty one, is no end. */
  function Given(b: Bound): Bound { if b.Unbounded? || b.key == [] then Unbounded else b }

  lemma InBoundsMeans(s: bytes, start: Bound, end: Bound)
    ensures InBounds(s, start, end) <==> AfterStart(s, Given(start)) && BeforeEnd(s, Given(end))
  {
  }

  /** Ranges keep what lies between their ends in byte order; timestamps start <= ts < end, where
      only a positive end is one. */
  lemma RangesKeep(row: Row, family: bytes, start: Bound, end: Bound, startMicros: int, endMicros: int)
    ensures Kept(ColumnRange(family, start, end), row)
      == Where(row, (c: CellInfo) => (family == [] || c.cell.family == family)
           && AfterStart(c.cell.qualifier, Given(start)) && BeforeEnd(c.cell.qualifier, Given(end)))
    ensures Kept(ValueRange(start, end), row)
      == Where(row, (c: CellInfo) => AfterStart(c.value, Given(start)) && BeforeEnd(c.value, Given(end)))
    ensures Kept(TimestampRange(startMicros, endMicros), row)
      == Where(row, (c: CellInfo) => (startMicros <= 0 || startMicros <= c.cell.ts) && (endMicros <= 0 || c.cell.ts < endMicros))
  {
    hide Kept, Where, InBounds, AfterStart, BeforeEnd, Given;
    forall s ensures InBounds(s, start, end) <==> AfterStart(s, Given(start)) && BeforeEnd(s, Given(end)) {
      InBoundsMeans(s, start, end);
    }
    LeafKeeps(ColumnRange(family, start, end), row, (c: CellInfo) => (family == [] || c.cell.family == family)
      && AfterStart(c.cell.qualifier, Given(start)) && BeforeEnd(c.cell.qualifier, Given(end)));
    LeafKeeps(ValueRange(start, end), row,
              (c: CellInfo) => AfterStart(c.value, Given(start)) && BeforeEnd(c.value, Given(end)));
    LeafKeeps(TimestampRange(startMicros, endMicros), row,
              (c: CellInfo) => (startMicros <= 0 || startMicros <= c.cell.ts) && (endMicros <= 0 || c.cell.ts < endMicros));
  }

  /** A value or column range is the documented one, for every string, exactly unless an end was given
      as the empty string: an empty end does not end anything, an empty open start excludes nothing. */
  lemma RangeIsDocumentedIff(start: Bound, end: Bound)
    ensures (forall s :: InBounds(s, start, end) <==> AfterStart(s, start) && BeforeEnd(s, end))
        <==> start != Open([]) && end != Open([]) && end != Closed([])
  {
    if start == Open([]) {
      assert InBounds([], start, end) && !AfterStart([], start);
    } else if end == Open([]) || end == Closed([]) {
      var s := (if start.Unbounded? then [] else start.key) + [0];
      LessCommonPrefix(if start.Unbounded? then [] else start.key, [], [0]);
      assert (if start.Unbounded? then [] else start.key) + [] == if start.Unbounded? then [] else start.key;
      assert InBounds(s, start, end) && !BeforeEnd(s, end);
    } else {
      forall s ensures InBounds(s, start, end) <==> AfterStart(s, start) && BeforeEnd(s, end) {
        InBoundsMeans(s, start, end);
        EmptyIsLeast(s);
      }
    }
  }

  lemma EmptyIsLeast(s: bytes)
    ensures s == [] || Less([], s)
  {
  }

  /** As documented: from the start on, 0 if there is none, and before the end, if there is one. */
  predicate InTimestamps(ts: int, start: int, end: int) { start <= ts && (end == 0 || ts < end) }

  /** A timestamp range is the documented one for all int64 timestamps exactly if the start is positive
      or the least int64, and the end is not negative; a start of 0 lets negative timestamps in. */
  lemma TimestampsAreDocumentedIff(start: int, end: int)
    requires IsInt64(start) && IsInt64(end)
    ensures (forall c: CellInfo :: IsInt64(c.cell.ts) ==>
               (Test(TimestampRange(start, end), c) <==> InTimestamps(c.cell.ts, start, end)))
        <==> (start > 0 || start == MIN_INT64) && end >= 0
  {
    var at := (ts: int) => CellInfo(Cell([], [], [], ts), []);
    if start <= 0 && start != MIN_INT64 {
      assert Test(TimestampRange(start, end), at(start - 1)) && !InTimestamps(start - 1, start, end);
      assert IsInt64(at(start - 1).cell.ts);
    } else if end < 0 {
      assert Test(TimestampRange(start, end), at(MAX_INT64)) && !InTimestamps(MAX_INT64, start, end);
      assert IsInt64(at(MAX_INT64).cell.ts);
    }
  }

  /* ---- Bitmasks ---- */

  /** (value & mask) == mask on the bytes that both have. */
  predicate MaskSet(value: bytes, mask: bytes) {
    |value| >= |mask| && forall i :: 0 <= i < |mask| ==> (mask[i] as bv8) & !(value[i] as bv8) == 0
  }

  function Zeros(n: nat): bytes { seq(n, _ => 0) }

  lemma MaskBits(v: bv8, m: bv8)
    ensures v & m == m <==> m & !v == 0
  {
  }

  /** A bitmask keeps the values that have every bit of the mask, and only zeros behind it. */
  lemma BitmaskKeeps(mask: bytes, row: Row)
    ensures Kept(ValueBitmask(mask), row)
      == Where(row, (c: CellInfo) => MaskSet(c.value, mask) && c.value[|mask|..] == Zeros(|c.value| - |mask|))
  {
    hide Kept, Where;
    forall value: bytes
      ensures MatchesBitmask(value, mask) <==> MaskSet(value, mask) && value[|mask|..] == Zeros(|value| - |mask|)
    {
      BitmaskMeans(value, mask);
    }
    hide MatchesBitmask, MaskSet, Zeros;
    LeafKeeps(ValueBitmask(mask), row,
              (c: CellInfo) => MaskSet(c.value, mask) && c.value[|mask|..] == Zeros(|c.value| - |mask|));
  }

  lemma BitmaskMeans(value: bytes, mask: bytes)
    ensures MatchesBitmask(value, mask) <==> MaskSet(value, mask) && value[|mask|..] == Zeros(|value| - |mask|)
  {
    if |value| >= |mask| {
      forall i | 0 <= i < |mask|
        ensures (value[i] as bv8) & (mask[i] as bv8) == mask[i] as bv8 <==> (mask[i] as bv8) & !(value[i] as bv8) == 0
      {
        MaskBits(value[i] as bv8, mask[i] as bv8);
      }
      assert forall i :: |mask| <= i < |value| ==> value[|mask|..][i - |mask|] == value[i];
    }
  }

  /** The documentation asks for a value of the mask's length: exactly padded values are kept in spite
      of it. */
  lemma BitmaskIsDocumentedIff(value: bytes, mask: bytes)
    ensures (MatchesBitmask(value, mask) <==> |value| == |mask| && MaskSet(value, mask))
        <==> !(|value| > |mask| && MaskSet(value, mask) && value[|mask|..] == Zeros(|value| - |mask|))
  {
    BitmaskMeans(value, mask);
    if |value| == |mask| { assert value[|mask|..] == Zeros(0); }
  }

  /** There is such a value for every mask. */
  lemma EveryMaskTakesPadding(mask: bytes)
    ensures MatchesBitmask(mask + [0], mask)
  {
    var value := mask + [0];
    forall i | 0 <= i < |mask| ensures (value[i] as bv8) & (mask[i] as bv8) == mask[i] as bv8 {
      SameBits(mask[i] as bv8);
    }
  }

  lemma SameBits(m: bv8)
    ensures m & m == m
  {
  }

  /* ---- All or nothing ---- */

  lemma {:induction false} WhereConst(row: Row, b: bool)
    ensures Where(row, (_: CellInfo) => b) == if b then row else []
    decreases |row|
  {
    if row != [] { WhereConst(row[1..], b); }
  }

  /** Strip-value and labels keep every cell, and so does every kind of filter the server does not know. */
  lemma AllOrNothing(row: Row, name: bytes)
    ensures Kept(BlockAll, row) == []
    ensures Kept(PassAll, row) == Kept(StripValue, row) == Kept(ApplyLabel(name), row) == Kept(Unsupported, row) == row
  {
    hide Kept, Where;
    WhereConst(row, true);
    WhereConst(row, false);
    LeafKeeps(BlockAll, row, (_: CellInfo) => false);
    LeafKeeps(PassAll, row, (_: CellInfo) => true);
    LeafKeeps(StripValue, row, (_: CellInfo) => true);
    LeafKeeps(ApplyLabel(name), row, (_: CellInfo) => true);
    LeafKeeps(Unsupported, row, (_: CellInfo) => true);
  }

  /* ---- Repetitions ---- */

  predicate SameCell(a: CellInfo, b: CellInfo) {
    a.cell.family == b.cell.family && a.cell.qualifier == b.cell.qualifier && a.cell.ts == b.cell.ts
  }

  lemma {:induction false} DropRepeatsAt(row: Row, m: seq<bool>, emitted: set<Identity>, i: nat)
    requires |m| == |row| && i < |row|
    ensures DropRepeats(row, m, emitted)[i] <==>
      && m[i] && IdentityOf(row[i]) !in emitted
      && forall j :: 0 <= j < i && m[j] ==> !SameCell(row[j], row[i])
    decreases |row|
  {
    if i > 0 {
      var id := IdentityOf(row[0]);
      var next := if m[0] && id !in emitted then emitted + {id} else emitted;
      DropRepeatsAt(row[1..], m[1..], next, i - 1);
      assert DropRepeats(row, m, emitted)[i] == DropRepeats(row[1..], m[1..], next)[i - 1];
      assert forall j :: 0 < j < i ==> m[1..][j - 1] == m[j] && row[1..][j - 1] == row[j];
      assert forall j :: 0 <= j < i - 1 ==> m[1..][j] == m[j + 1] && row[1..][j] == row[j + 1];
    }
  }

  /** An interleave keeps a cell that some branch keeps unless an earlier one has the same family,
      qualifier and timestamp. */
  lemma InterleaveKeepsFirst(fs: seq<Filter>, row: Row, i: nat)
    requires i < |row|
    ensures Mask(Interleave(fs), row)[i] <==>
      CascadeMask(fs, row)[i] && forall j :: 0 <= j < i && CascadeMask(fs, row)[j] ==> !SameCell(row[j], row[i])
  {
    hide CascadeMask, SameCell;
    DropRepeatsAt(row, CascadeMask(fs, row), {}, i);
  }

  /* ---- The tree as a whole ---- */

  /** No regular expression anywhere in the filter is malformed. */
  ghost predicate Compiles(f: Filter) {
    match f
    case Chain(fs) => forall g :: g in fs ==> Compiles(g)
    case Interleave(fs) => forall g :: g in fs ==> Compiles(g)
    case Condition(p, t, e) =>
      (p.Some? ==> Compiles(p.value)) && (t.Some? ==> Compiles(t.value)) && (e.Some? ==> Compiles(e.value))
    case RowKeyRegex(re) => re.Compiled?
    case FamilyRegex(re) => re.Compiled?
    case QualifierRegex(re) => re.Compiled?
    case ValueRegex(re) => re.Compiled?
    case _ => true
  }

  /** A strip-value transformer occurs anywhere in the filter, whichever branch it is in. */
  ghost predicate Strips(f: Filter) {
    match f
    case Chain(fs) => exists g :: g in fs && Strips(g)
    case Interleave(fs) => exists g :: g in fs && Strips(g)
    case Condition(p, t, e) =>
      (p.Some? && Strips(p.value)) || (t.Some? && Strips(t.value)) || (e.Some? && Strips(e.value))
    case _ => f.StripValue?
  }

  /** A filter is refused exactly for a malformed expression, wherever it is; values are emptied
      exactly for a strip-value, wherever it is. */
  lemma {:induction false} BuiltTree(f: Filter)
    ensures Build(f).Some? <==> Compiles(f)
    ensures Build(f).Some? ==> (HasStripValue(Build(f).value) <==> Strips(f))
    decreases f, 1
  {
    match f
    case Chain(fs) => BuiltTrees(fs);
    case Interleave(fs) => BuiltTrees(fs);
    case Condition(p, t, e) =>
      if p.Some? { BuiltTree(p.value); }
      if t.Some? { BuiltTree(t.value); }
      if e.Some? { BuiltTree(e.value); }
    case _ =>
  }

  lemma {:induction false} BuiltTrees(fs: seq<Filter>)
    ensures BuildAll(fs).Some? <==> forall g :: g in fs ==> Compiles(g)
    ensures BuildAll(fs).Some? ==> (AnyStripValue(BuildAll(fs).value) <==> exists g :: g in fs && Strips(g))
    decreases fs, 0
  {
    if fs != [] {
      BuiltTree(fs[0]);
      BuiltTrees(fs[1..]);
      assert forall g :: g in fs <==> g == fs[0] || g in fs[1..];
      if BuildAll(fs).Some? {
        var e, es := Build(fs[0]).value, BuildAll(fs[1..]).value;
        assert ([e] + es)[1..] == es;
      }
    }
  }
}
