/** Read-modify-write rules (pkg/bigtable/readmodifywrite.go). */
module ReadModifyWrite {
  import opened Bytes
  import opened Encoding
  import opened Decoding
  import opened Bounds
  import opened Pebble
  import opened Table
  import opened Mutate

  datatype Action = AppendValue(suffix: bytes) | IncrementAmount(amount: int) | UnknownAction

  datatype Rule = Rule(family: bytes, qualifier: bytes, action: Action)

  type Column = (bytes, bytes)

  function ColumnOfRule(r: Rule): Column { (r.family, r.qualifier) }

  /* ---- One rule ---- */

  function NewValue(current: bytes, a: Action): Result<bytes> {
    match a
    case AppendValue(suffix) => Ok(current + suffix)
    case IncrementAmount(amount) =>
      if current != [] && |current| != 8 then Err(FailedPrecondition)
      else if FromBigEndian(current) > MAX_INT64 then Err(FailedPrecondition)
      else
        var sum := ToInt64(FromBigEndian(current) + amount);
        if sum < 0 then Err(OutOfRange) else Ok(BigEndian(sum, 8))
    case UnknownAction => Err(InvalidArgument)
  }

  /** The sign test on the wrapped sum is an exact overflow test: an increment succeeds exactly
      when the current value is a non-negative int64 (empty is 0) and so is the unwrapped sum,
      which then is what a later read decodes. */
  lemma IncrementExact(current: bytes, amount: int)
    requires IsInt64(amount)
    ensures var r := NewValue(current, IncrementAmount(amount));
      && (r.Ok? <==> (current == [] || |current| == 8) && FromBigEndian(current) <= MAX_INT64
                     && 0 <= FromBigEndian(current) + amount <= MAX_INT64)
      && (r.Ok? ==> |r.value| == 8 && FromBigEndian(r.value) == FromBigEndian(current) + amount)
  {
    hide FromBigEndian, BigEndian, ToInt64;
    var sum := FromBigEndian(current) + amount;
    if FromBigEndian(current) <= MAX_INT64 { SignTest(sum); }
    if 0 <= sum <= MAX_INT64 {
      PowersOf256();
      BigEndianRoundTrip(sum, 8);
    }
  }

  /** The wrapped sum of a non-negative int64 and any int64 is negative exactly when the sum is not a
      non-negative int64. */
  lemma SignTest(sum: int)
    requires MIN_INT64 <= sum <= 2 * MAX_INT64
    ensures 0 <= sum <= MAX_INT64 ==> ToInt64(sum) == sum
    ensures !(0 <= sum <= MAX_INT64) ==> ToInt64(sum) < 0
  {
    if sum > MAX_INT64 { WrapsOnce(sum - MIN_INT64); }
  }

  lemma WrapsOnce(x: int)
    requires TWO_64 <= x < 2 * TWO_64
    ensures x % TWO_64 == x - TWO_64
  {
  }

  /** An append gives the old value and then the suffix.  What is no value for an increment is a failed
      precondition, a sum out of range is said to be so, and other rules are invalid arguments. */
  lemma RuleExact(current: bytes, a: Action)
    requires a.IncrementAmount? ==> IsInt64(a.amount)
    ensures a.AppendValue? ==>
      var r := NewValue(current, a);
      r.Ok? && |r.value| == |current| + |a.suffix| && r.value[..|current|] == current && r.value[|current|..] == a.suffix
    ensures a.IncrementAmount? ==>
      var valid := (current == [] || |current| == 8) && FromBigEndian(current) <= MAX_INT64;
      && (NewValue(current, a) == Err(FailedPrecondition) <==> !valid)
      && (NewValue(current, a) == Err(OutOfRange) <==> valid && !(0 <= FromBigEndian(current) + a.amount <= MAX_INT64))
    ensures a.UnknownAction? ==> NewValue(current, a) == Err(InvalidArgument)
  {
    if a.IncrementAmount? { IncrementExact(current, a.amount); }
  }

  /* ---- Reading a column through an iterator ---- */

  function ColumnRange(row: bytes, family: bytes, qualifier: bytes): KeyRange {
    var cp := ColumnOf(row, family, qualifier);
    KeyRange(Some(cp), Some(EndKey(cp)))
  }

  /** readCellValue: the first entry under the column prefix; nil is the empty value. */
  function ReadCell(db: DB, row: bytes, family: bytes, qualifier: bytes): bytes {
    var ks := Iterate(db, ColumnRange(row, family, qualifier));
    if ks != [] && ColumnOf(row, family, qualifier) <= ks[0] then db[ks[0]] else []
  }

  /** Cells of the column that the column bounds reach. */
  predicate InColumn(c: Cell, row: bytes, family: bytes, qualifier: bytes) {
    && c.row == row && c.family == family && c.qualifier == qualifier
    && c.ts >= MIN_INT64 + 0x100_0000_0000_0000
  }

  ghost predicate IsNewest(t: Table, row: bytes, family: bytes, qualifier: bytes, c: Cell) {
    && c in t && InColumn(c, row, family, qualifier)
    && forall d :: d in t && InColumn(d, row, family, qualifier) ==> d.ts <= c.ts
  }

  /** The value of the column's newest cell, or the empty value. */
  ghost function Latest(t: Table, row: bytes, family: bytes, qualifier: bytes): bytes {
    if exists c :: IsNewest(t, row, family, qualifier, c)
    then var c :| IsNewest(t, row, family, qualifier, c); t[c]
    else []
  }

  lemma NewestDecides(t: Table, row: bytes, family: bytes, qualifier: bytes, c: Cell)
    requires IsNewest(t, row, family, qualifier, c)
    ensures Latest(t, row, family, qualifier) == t[c]
  {
  }

  lemma ReadIsLatest(t: Table, row: bytes, family: bytes, qualifier: bytes)
    requires ValidTable(t) && |family| <= 255 && |qualifier| <= 65535
    ensures ReadCell(EncodeTable(t), row, family, qualifier) == Latest(t, row, family, qualifier)
  {
    hide CellKey, ColumnOf;
    var db, cp := EncodeTable(t), ColumnOf(row, family, qualifier);
    var ks := Iterate(db, ColumnRange(row, family, qualifier));
    forall c | c in t ensures CellKey(c) in ks <==> InColumn(c, row, family, qualifier) {
      ColumnBoundsExact(c, row, family, qualifier);
    }
    if ks != [] {
      assert ks[0] in ks;
      var c := Decoded(ks[0]).value;
      ColumnPrefixExact(c, row, family, qualifier);
      forall d | d in t && InColumn(d, row, family, qualifier) ensures d.ts <= c.ts {
        var j :| 0 <= j < |ks| && ks[j] == CellKey(d);
        OrderEmbedding(c, d);
        LessIrreflexive(row);
        LessIrreflexive(family);
        LessIrreflexive(qualifier);
      }
      NewestDecides(t, row, family, qualifier, c);
    }
  }

  /* ---- The rule loop ---- */

  datatype Outcome = Outcome(view: DB, modified: map<Column, bytes>)

  /** Each rule reads through the indexed batch, so it sees the writes of earlier rules. */
  function RunRule(o: Outcome, row: bytes, r: Rule, ts: int): Result<Outcome> {
    match NewValue(ReadCell(o.view, row, r.family, r.qualifier), r.action)
    case Err(e) => Err(e)
    case Ok(v) =>
      Ok(Outcome(o.view[CellKey(Cell(row, r.family, r.qualifier, ts)) := v], o.modified[ColumnOfRule(r) := v]))
  }

  function RunRules(db: DB, row: bytes, rules: seq<Rule>, ts: int): Result<Outcome>
    decreases |rules|
  {
    if rules == [] then Ok(Outcome(db, map[]))
    else
      var n := |rules| - 1;
      match RunRules(db, row, rules[..n], ts)
      case Err(e) => Err(e)
      case Ok(o) => RunRule(o, row, rules[n], ts)
  }

  lemma {:induction false} FailureSticks(db: DB, row: bytes, rules: seq<Rule>, ts: int, n: nat)
    requires n <= |rules| && RunRules(db, row, rules[..n], ts).Err?
    ensures RunRules(db, row, rules, ts) == RunRules(db, row, rules[..n], ts)
    decreases |rules|
  {
    hide RunRule;
    if n < |rules| {
      assert rules[..|rules| - 1][..n] == rules[..n];
      FailureSticks(db, row, rules[..|rules| - 1], ts, n);
    } else {
      assert rules[..n] == rules;
    }
  }

  /** now is the time read once per request; applied says whether the engine accepts the batch. */
  method ReadModifyWriteRow(s: TableServer, row: bytes, rules: seq<Rule>, now: int, applied: bool)
    returns (r: Result<map<Column, bytes>>)
    modifies s
    ensures row == [] || rules == [] ==> r == Err(InvalidArgument)
    ensures row != [] && rules != [] ==>
      var o := RunRules(old(s.db), row, rules, now);
      r == if o.Err? then Err(o.status) else if !applied then Err(Internal) else Ok(o.value.modified)
    ensures s.db == if r.Ok? then RunRules(old(s.db), row, rules, now).value.view else old(s.db)
  {
    if row == [] || rules == [] { return Err(InvalidArgument); }
    var batch := new Batch();
    var modified: map<Column, bytes> := map[];
    for i := 0 to |rules|
      invariant fresh(batch) && s.db == old(s.db)
      invariant RunRules(s.db, row, rules[..i], now) == Ok(Outcome(ApplyOps(s.db, batch.ops), modified))
    {
      hide CellKey, ReadCell, NewValue;
      assert rules[..i + 1][..i] == rules[..i];
      var rule := rules[i];
      var current := ReadCell(ApplyOps(s.db, batch.ops), row, rule.family, rule.qualifier);
      match NewValue(current, rule.action)
      case Err(e) =>
        FailureSticks(s.db, row, rules, now, i + 1);
        return Err(e);
      case Ok(v) =>
        var key := CellKey(Cell(row, rule.family, rule.qualifier, now));
        ApplyOpsSnoc(s.db, batch.ops, Set(key, v));
        batch.Append(Set(key, v));
        modified := modified[ColumnOfRule(rule) := v];
    }
    assert rules[..|rules|] == rules;
    if !applied { return Err(Internal); }
    s.db := ApplyOps(s.db, batch.ops);
    return Ok(modified);
  }

  /** A request of one append: the newest value and then the suffix are the answer, and stored under
      the request's time; nothing else changes. */
  lemma AppendStores(t: Table, row: bytes, family: bytes, qualifier: bytes, suffix: bytes, now: int)
    requires ValidTable(t) && IsInt64(now) && |family| <= 255 && |qualifier| <= 65535
    ensures var o := RunRules(EncodeTable(t), row, [Rule(family, qualifier, AppendValue(suffix))], now);
      var c := Cell(row, family, qualifier, now);
      && o.Ok? && (family, qualifier) in o.value.modified
      && var v := o.value.modified[(family, qualifier)];
         v[..|v| - |suffix|] == Latest(t, row, family, qualifier) && v[|v| - |suffix|..] == suffix
         && ValidTable(t[c := v]) && o.value.view == EncodeTable(t[c := v])
  {
    hide CellKey, ReadCell, ColumnOf;
    var rules := [Rule(family, qualifier, AppendValue(suffix))];
    var v := Latest(t, row, family, qualifier) + suffix;
    assert rules[..0] == [] && rules[0].action == AppendValue(suffix);
    ReadIsLatest(t, row, family, qualifier);
    SetWrites(t, Cell(row, family, qualifier, now), v);
    assert RunRule(Outcome(EncodeTable(t), map[]), row, rules[0], now)
      == Ok(Outcome(EncodeTable(t[Cell(row, family, qualifier, now) := v]), map[(family, qualifier) := v]));
    assert v[..|v| - |suffix|] == Latest(t, row, family, qualifier) && v[|v| - |suffix|..] == suffix;
  }

  /* ---- What a request does to each column ---- */

  /** The rules of one column in order.  If the column is frozen, by a cell newer than the request,
      each of them reads the same value. */
  function RunColumn(value: bytes, frozen: bool, rules: seq<Rule>, col: Column): Result<bytes>
    decreases |rules|
  {
    if rules == [] then Ok(value)
    else
      var n := |rules| - 1;
      match RunColumn(value, frozen, rules[..n], col)
      case Err(e) => Err(e)
      case Ok(v) => if ColumnOfRule(rules[n]) == col then NewValue(if frozen then value else v, rules[n].action) else Ok(v)
  }

  function Touched(rules: seq<Rule>): set<Column> { set i | 0 <= i < |rules| :: ColumnOfRule(rules[i]) }

  ghost predicate Frozen(t: Table, row: bytes, col: Column, ts: int) {
    exists c :: c in t && c.row == row && (c.family, c.qualifier) == col && c.ts > ts
  }

  ghost predicate Addressable(rules: seq<Rule>, ts: int) {
    && IsInt64(ts) && ts >= MIN_INT64 + 0x100_0000_0000_0000
    && forall i :: 0 <= i < |rules| ==> |rules[i].family| <= 255 && |rules[i].qualifier| <= 65535
  }

  ghost function ColumnRun(t: Table, row: bytes, rules: seq<Rule>, ts: int, col: Column): Result<bytes> {
    RunColumn(Latest(t, row, col.0, col.1), Frozen(t, row, col, ts), rules, col)
  }

  /** t2 is t with the result of every touched column written at ts. */
  ghost predicate Rewritten(t: Table, t2: Table, row: bytes, rules: seq<Rule>, ts: int) {
    && t2.Keys == t.Keys + (set col | col in Touched(rules) :: Cell(row, col.0, col.1, ts))
    && (forall col :: col in Touched(rules) ==> ColumnRun(t, row, rules, ts, col) == Ok(t2[Cell(row, col.0, col.1, ts)]))
    && (forall c :: c in t && !(c.row == row && c.ts == ts && (c.family, c.qualifier) in Touched(rules)) ==> t2[c] == t[c])
  }

  /** What a rule reads after earlier rules: their result, or the frozen value. */
  lemma LatestAfterRules(t: Table, t2: Table, row: bytes, rules: seq<Rule>, ts: int, col: Column)
    requires Rewritten(t, t2, row, rules, ts) && ts >= MIN_INT64 + 0x100_0000_0000_0000
    requires ColumnRun(t, row, rules, ts, col).Ok?
    ensures Latest(t2, row, col.0, col.1) ==
      if Frozen(t, row, col, ts) then Latest(t, row, col.0, col.1) else ColumnRun(t, row, rules, ts, col).value
  {
    var (family, qualifier) := col;
    hide RunColumn, NewValue;
    if col in Touched(rules) && !Frozen(t, row, col, ts) {
      NewestDecides(t2, row, family, qualifier, Cell(row, family, qualifier, ts));
    } else {
      if !Frozen(t, row, col, ts) { UntouchedRun(Latest(t, row, family, qualifier), false, rules, col); }
      forall c ensures IsNewest(t2, row, family, qualifier, c) <==> IsNewest(t, row, family, qualifier, c) {
        SameNewest(t, t2, row, rules, ts, col, c);
      }
      if exists c :: IsNewest(t, row, family, qualifier, c) {
        var c :| IsNewest(t, row, family, qualifier, c);
        NewestDecides(t, row, family, qualifier, c);
        NewestDecides(t2, row, family, qualifier, c);
        assert t2[c] == t[c];
      }
    }
  }

  lemma SameNewest(t: Table, t2: Table, row: bytes, rules: seq<Rule>, ts: int, col: Column, c: Cell)
    requires Rewritten(t, t2, row, rules, ts) && ts >= MIN_INT64 + 0x100_0000_0000_0000
    requires col !in Touched(rules) || Frozen(t, row, col, ts)
    ensures IsNewest(t2, row, col.0, col.1, c) <==> IsNewest(t, row, col.0, col.1, c)
    ensures IsNewest(t, row, col.0, col.1, c) && Frozen(t, row, col, ts) ==> c.ts > ts
  {
    hide ColumnRun;
    assert forall d: Cell :: InColumn(d, row, col.0, col.1) && d.ts != ts ==> (d in t2 <==> d in t);
    if Frozen(t, row, col, ts) {
      var d :| d in t && d.row == row && (d.family, d.qualifier) == col && d.ts > ts;
      assert d in t2 && InColumn(d, row, col.0, col.1);
    } else {
      assert forall d: Cell :: InColumn(d, row, col.0, col.1) ==> (d in t2 <==> d in t);
    }
  }

  lemma {:induction false} UntouchedRun(value: bytes, frozen: bool, rules: seq<Rule>, col: Column)
    requires col !in Touched(rules)
    ensures RunColumn(value, frozen, rules, col) == Ok(value)
    decreases |rules|
  {
    if rules != [] {
      var n := |rules| - 1;
      assert forall i :: 0 <= i < n ==> rules[..n][i] == rules[i];
      UntouchedRun(value, frozen, rules[..n], col);
    }
  }

  lemma TouchedSnoc(rules: seq<Rule>)
    requires rules != []
    ensures Touched(rules) == Touched(rules[..|rules| - 1]) + {ColumnOfRule(rules[|rules| - 1])}
  {
    var n := |rules| - 1;
    assert forall i :: 0 <= i < n ==> rules[..n][i] == rules[i];
  }

  ghost predicate AllSucceed(t: Table, row: bytes, rules: seq<Rule>, ts: int) {
    forall col :: col in Touched(rules) ==> ColumnRun(t, row, rules, ts, col).Ok?
  }

  /** The request succeeds exactly when the run of every column does, and then both the table t2
      and the response hold the result of each touched column; the rest of the table is unchanged. */
  ghost predicate IsRunOf(t: Table, t2: Table, row: bytes, rules: seq<Rule>, ts: int, o: Result<Outcome>) {
    && (o.Ok? <==> AllSucceed(t, row, rules, ts))
    && (o.Ok? ==>
          && ValidTable(t2) && o.value.view == EncodeTable(t2) && Rewritten(t, t2, row, rules, ts)
          && o.value.modified.Keys == Touched(rules)
          && forall col :: col in Touched(rules) ==> Ok(o.value.modified[col]) == ColumnRun(t, row, rules, ts, col))
  }

  /** For every table and every rule list. */
  lemma {:induction false} RulesRunByColumn(t: Table, row: bytes, rules: seq<Rule>, ts: int)
    requires ValidTable(t) && Addressable(rules, ts)
    ensures exists t2 :: IsRunOf(t, t2, row, rules, ts, RunRules(EncodeTable(t), row, rules, ts))
    decreases |rules|
  {
    hide RunRule, IsRunOf;
    var db := EncodeTable(t);
    if rules == [] {
      NoRules(t, row, ts);
      assert IsRunOf(t, t, row, rules, ts, RunRules(db, row, rules, ts));
    } else {
      var init := rules[..|rules| - 1];
      assert Addressable(init, ts);
      RulesRunByColumn(t, row, init, ts);
      var t1 :| IsRunOf(t, t1, row, init, ts, RunRules(db, row, init, ts));
      var t2 := RunStep(t, t1, row, rules, ts, RunRules(db, row, init, ts), RunRules(db, row, rules, ts));
    }
  }

  lemma NoRules(t: Table, row: bytes, ts: int)
    requires ValidTable(t)
    ensures IsRunOf(t, t, row, [], ts, Ok(Outcome(EncodeTable(t), map[])))
  {
    hide EncodeTable, Latest, Frozen;
  }

  lemma OtherColumnsKeepTheirRun(t: Table, row: bytes, rules: seq<Rule>, ts: int)
    requires rules != []
    ensures forall x :: x != ColumnOfRule(rules[|rules| - 1]) ==>
      ColumnRun(t, row, rules, ts, x) == ColumnRun(t, row, rules[..|rules| - 1], ts, x)
    ensures forall x :: ColumnRun(t, row, rules[..|rules| - 1], ts, x).Err? ==> ColumnRun(t, row, rules, ts, x).Err?
  {
    hide NewValue, Latest, Frozen;
  }

  lemma RunStep(t: Table, t1: Table, row: bytes, rules: seq<Rule>, ts: int, o1: Result<Outcome>, o2: Result<Outcome>)
    returns (t2: Table)
    requires Addressable(rules, ts)
    requires rules != [] && IsRunOf(t, t1, row, rules[..|rules| - 1], ts, o1)
    requires o2 == if o1.Err? then o1 else RunRule(o1.value, row, rules[|rules| - 1], ts)
    ensures IsRunOf(t, t2, row, rules, ts, o2)
  {
    hide CellKey, ReadCell, NewValue, EncodeTable, Rewritten, ColumnRun, Touched;
    var r := rules[|rules| - 1];
    TouchedSnoc(rules);
    OtherColumnsKeepTheirRun(t, row, rules, ts);
    t2 := t1;
    if o1.Ok? {
      var v := RuleValue(t, t1, row, rules, ts);
      if v.Ok? {
        var c := Cell(row, r.family, r.qualifier, ts);
        t2 := t1[c := v.value];
        RewrittenSnoc(t, t1, row, rules, ts, v.value);
        WriteStep(t1, c, v.value, rules, ts);
      }
    }
  }

  lemma WriteStep(t1: Table, c: Cell, v: bytes, rules: seq<Rule>, ts: int)
    requires ValidTable(t1) && Addressable(rules, ts) && rules != [] && c.ts == ts
    requires c.family == rules[|rules| - 1].family && c.qualifier == rules[|rules| - 1].qualifier
    ensures ValidTable(t1[c := v]) && EncodeTable(t1)[CellKey(c) := v] == EncodeTable(t1[c := v])
  {
    hide CellKey;
    SetWrites(t1, c, v);
  }

  /** The last rule computes the run of its column. */
  lemma RuleValue(t: Table, t1: Table, row: bytes, rules: seq<Rule>, ts: int) returns (v: Result<bytes>)
    requires ValidTable(t1) && Addressable(rules, ts)
    requires rules != [] && Rewritten(t, t1, row, rules[..|rules| - 1], ts)
    requires AllSucceed(t, row, rules[..|rules| - 1], ts)
    ensures var r := rules[|rules| - 1];
      v == NewValue(ReadCell(EncodeTable(t1), row, r.family, r.qualifier), r.action) == ColumnRun(t, row, rules, ts, ColumnOfRule(r))
  {
    hide CellKey, ReadCell, NewValue, EncodeTable, Rewritten, Latest, Frozen, Touched;
    var r, init := rules[|rules| - 1], rules[..|rules| - 1];
    var col := ColumnOfRule(r);
    ReadIsLatest(t1, row, r.family, r.qualifier);
    if col !in Touched(init) { UntouchedRun(Latest(t, row, col.0, col.1), Frozen(t, row, col, ts), init, col); }
    LatestAfterRules(t, t1, row, init, ts, col);
    v := NewValue(Latest(t1, row, r.family, r.qualifier), r.action);
  }

  lemma RewrittenSnoc(t: Table, t1: Table, row: bytes, rules: seq<Rule>, ts: int, v: bytes)
    requires rules != [] && Rewritten(t, t1, row, rules[..|rules| - 1], ts)
    requires ColumnRun(t, row, rules, ts, ColumnOfRule(rules[|rules| - 1])) == Ok(v)
    ensures var r := rules[|rules| - 1];
      Rewritten(t, t1[Cell(row, r.family, r.qualifier, ts) := v], row, rules, ts)
  {
    hide NewValue, Latest, Frozen, RunColumn, ColumnRun, Touched;
    TouchedSnoc(rules);
    OtherColumnsKeepTheirRun(t, row, rules, ts);
  }

  /** In a frozen column every rule works on the newer cell alone: all of them have to succeed on it,
      and the last one decides. */
  lemma {:induction false} FrozenColumn(value: bytes, rules: seq<Rule>, col: Column, i: nat)
    requires i < |rules| && ColumnOfRule(rules[i]) == col && forall j :: i < j < |rules| ==> ColumnOfRule(rules[j]) != col
    ensures var r := RunColumn(value, true, rules, col);
      && (r.Ok? <==> forall j :: 0 <= j < |rules| && ColumnOfRule(rules[j]) == col ==> NewValue(value, rules[j].action).Ok?)
      && (r.Ok? ==> r == NewValue(value, rules[i].action))
    decreases |rules|
  {
    hide NewValue;
    var n := |rules| - 1;
    var init := rules[..n];
    assert forall j :: 0 <= j < n ==> init[j] == rules[j];
    if i < n {
      FrozenColumn(value, init, col, i);
    } else {
      FrozenSucceeds(value, init, col);
    }
  }

  lemma {:induction false} FrozenSucceeds(value: bytes, rules: seq<Rule>, col: Column)
    ensures RunColumn(value, true, rules, col).Ok? <==>
      forall j :: 0 <= j < |rules| && ColumnOfRule(rules[j]) == col ==> NewValue(value, rules[j].action).Ok?
    decreases |rules|
  {
    hide NewValue;
    if rules != [] {
      var n := |rules| - 1;
      assert forall j :: 0 <= j < n ==> rules[..n][j] == rules[j];
      FrozenSucceeds(value, rules[..n], col);
    }
  }

  /* ---- When that is the fold ---- */

  /** The rules of one column, applied one after the other to one value. */
  function FoldColumn(value: bytes, rules: seq<Rule>, col: Column): Result<bytes>
    decreases |rules|
  {
    if rules == [] then Ok(value)
    else
      var n := |rules| - 1;
      match FoldColumn(value, rules[..n], col)
      case Err(e) => Err(e)
      case Ok(v) => if ColumnOfRule(rules[n]) == col then NewValue(v, rules[n].action) else Ok(v)
  }

  ghost function ColumnFold(t: Table, row: bytes, rules: seq<Rule>, col: Column): Result<bytes> {
    FoldColumn(Latest(t, row, col.0, col.1), rules, col)
  }

  /** The response, or failure, that the folds of the touched columns give. */
  ghost predicate AnswersFolds(t: Table, row: bytes, rules: seq<Rule>, ts: int)
    requires ValidTable(t)
  {
    var o := RunRules(EncodeTable(t), row, rules, ts);
    && (o.Ok? <==> forall col :: col in Touched(rules) ==> ColumnFold(t, row, rules, col).Ok?)
    && (o.Ok? ==> o.value.modified.Keys == Touched(rules)
                  && forall col :: col in Touched(rules) ==> Ok(o.value.modified[col]) == ColumnFold(t, row, rules, col))
  }

  predicate AtMostOnce(rules: seq<Rule>, col: Column) {
    forall i, j :: 0 <= i < j < |rules| ==> !(ColumnOfRule(rules[i]) == ColumnOfRule(rules[j]) == col)
  }

  lemma {:induction false} RunIsFold(value: bytes, frozen: bool, rules: seq<Rule>, col: Column)
    requires !frozen || AtMostOnce(rules, col)
    ensures RunColumn(value, frozen, rules, col) == FoldColumn(value, rules, col)
    decreases |rules|
  {
    hide NewValue;
    if rules != [] {
      var n := |rules| - 1;
      assert forall j :: 0 <= j < n ==> rules[..n][j] == rules[j];
      RunIsFold(value, frozen, rules[..n], col);
      if frozen && ColumnOfRule(rules[n]) == col {
        assert col !in Touched(rules[..n]);
        UntouchedRun(value, frozen, rules[..n], col);
      }
    }
  }

  ghost predicate FrozenAtMostOnce(t: Table, row: bytes, rules: seq<Rule>, ts: int) {
    forall col :: col in Touched(rules) && Frozen(t, row, col, ts) ==> AtMostOnce(rules, col)
  }

  /** The stored and returned value of each column is the left fold of its rules, and the request
      fails exactly when a fold does, if no column with a newer cell is addressed twice. */
  lemma RulesAreFolds(t: Table, row: bytes, rules: seq<Rule>, ts: int)
    requires ValidTable(t) && Addressable(rules, ts) && FrozenAtMostOnce(t, row, rules, ts)
    ensures AnswersFolds(t, row, rules, ts)
    ensures exists t2 :: IsRunOf(t, t2, row, rules, ts, RunRules(EncodeTable(t), row, rules, ts))
    ensures forall col :: col in Touched(rules) ==> ColumnRun(t, row, rules, ts, col) == ColumnFold(t, row, rules, col)
  {
    hide RunRules, EncodeTable, Rewritten, RunColumn, FoldColumn, Latest, Frozen, Touched, AtMostOnce;
    RulesRunByColumn(t, row, rules, ts);
    forall col | col in Touched(rules) ensures ColumnRun(t, row, rules, ts, col) == ColumnFold(t, row, rules, col) {
      RunIsFold(Latest(t, row, col.0, col.1), Frozen(t, row, col, ts), rules, col);
    }
    var t2 :| IsRunOf(t, t2, row, rules, ts, RunRules(EncodeTable(t), row, rules, ts));
  }

  /** A request to these columns with these actions. */
  function RulesFor(cols: seq<Column>, actions: seq<Action>): (rules: seq<Rule>)
    requires |actions| == |cols|
    ensures |rules| == |cols|
    ensures forall i :: 0 <= i < |cols| ==> ColumnOfRule(rules[i]) == cols[i] && rules[i].action == actions[i]
  {
    seq(|cols|, i requires 0 <= i < |cols| => Rule(cols[i].0, cols[i].1, actions[i]))
  }

  ghost predicate Nameable(cols: seq<Column>) {
    forall i :: 0 <= i < |cols| ==> |cols[i].0| <= 255 && |cols[i].1| <= 65535
  }

  /** A list of columns gets the folds, whatever the actions, exactly when none of its columns with
      a newer cell occurs twice. */
  lemma FoldsIff(t: Table, row: bytes, cols: seq<Column>, ts: int)
    requires ValidTable(t) && Nameable(cols) && IsInt64(ts) && ts >= MIN_INT64 + 0x100_0000_0000_0000
    ensures (forall actions :: |actions| == |cols| ==> AnswersFolds(t, row, RulesFor(cols, actions), ts))
        <==> forall i, j :: 0 <= i < j < |cols| && cols[i] == cols[j] ==> !Frozen(t, row, cols[i], ts)
  {
    hide AnswersFolds, Frozen;
    if i, j :| 0 <= i < j < |cols| && cols[i] == cols[j] && Frozen(t, row, cols[i], ts) {
      var actions := seq(|cols|, _ => AppendValue([8]));
      AppendsAreNotFolded(t, row, RulesFor(cols, actions), ts, i, j);
      assert !AnswersFolds(t, row, RulesFor(cols, actions), ts);
    } else {
      forall actions | |actions| == |cols| ensures AnswersFolds(t, row, RulesFor(cols, actions), ts) {
        RulesAreFolds(t, row, RulesFor(cols, actions), ts);
      }
    }
  }

  predicate AllAppend(rules: seq<Rule>) { forall i :: 0 <= i < |rules| ==> rules[i].action == AppendValue([8]) }

  /** Appending to a frozen column twice: the fold grows with every rule, the answer only once. */
  lemma AppendsAreNotFolded(t: Table, row: bytes, rules: seq<Rule>, ts: int, i: nat, j: nat)
    requires ValidTable(t) && Addressable(rules, ts) && AllAppend(rules)
    requires i < j < |rules| && ColumnOfRule(rules[i]) == ColumnOfRule(rules[j]) &&
             Frozen(t, row, ColumnOfRule(rules[i]), ts)
    ensures !AnswersFolds(t, row, rules, ts)
  {
    hide RunRules, EncodeTable, Rewritten, RunColumn, FoldColumn, Latest, Frozen, AllAppend;
    var col := ColumnOfRule(rules[i]);
    var value := Latest(t, row, col.0, col.1);
    RulesRunByColumn(t, row, rules, ts);
    var t2 :| IsRunOf(t, t2, row, rules, ts, RunRules(EncodeTable(t), row, rules, ts));
    forall x | x in Touched(rules) ensures ColumnRun(t, row, rules, ts, x).Ok? {
      AppendRun(Latest(t, row, x.0, x.1), Frozen(t, row, x, ts), rules, x);
    }
    assert col in Touched(rules);
    AppendRun(value, true, rules, col);
    AppendFold(value, rules, col, i, j);
  }

  lemma {:induction false} AppendRun(value: bytes, frozen: bool, rules: seq<Rule>, col: Column)
    requires AllAppend(rules)
    ensures RunColumn(value, frozen, rules, col).Ok?
    ensures frozen ==> |RunColumn(value, frozen, rules, col).value| <= |value| + 1
    decreases |rules|
  {
    if rules != [] { AppendRun(value, frozen, rules[..|rules| - 1], col); }
  }

  lemma {:induction false} AppendFold(value: bytes, rules: seq<Rule>, col: Column, i: nat, j: nat)
    requires AllAppend(rules) && i < j < |rules| && ColumnOfRule(rules[i]) == ColumnOfRule(rules[j]) == col
    ensures FoldColumn(value, rules, col).Ok? && |FoldColumn(value, rules, col).value| >= |value| + 2
    decreases |rules|
  {
    var n := |rules| - 1;
    if j < n {
      AppendFold(value, rules[..n], col, i, j);
    } else {
      AppendOnce(value, rules[..n], col, i);
    }
  }

  lemma {:induction false} AppendOnce(value: bytes, rules: seq<Rule>, col: Column, i: nat)
    requires AllAppend(rules) && i < |rules| && ColumnOfRule(rules[i]) == col
    ensures FoldColumn(value, rules, col).Ok? && |FoldColumn(value, rules, col).value| >= |value| + 1
    decreases |rules|
  {
    var n := |rules| - 1;
    if i < n { AppendOnce(value, rules[..n], col, i); } else { AppendAny(value, rules[..n], col); }
  }

  lemma {:induction false} AppendAny(value: bytes, rules: seq<Rule>, col: Column)
    requires AllAppend(rules)
    ensures FoldColumn(value, rules, col).Ok? && |FoldColumn(value, rules, col).value| >= |value|
    decreases |rules|
  {
    if rules != [] { AppendAny(value, rules[..|rules| - 1], col); }
  }

  /* ---- Names that do not fit ---- */

  /** The request does not test its names: rows share the column they read and write exactly when
      the family or the qualifier is too long for the key layout. */
  lemma RowsShareAColumnIff(row: bytes, other: bytes, family: bytes, qualifier: bytes)
    requires row != other
    ensures ColumnOf(row, family, qualifier) == ColumnOf(other, family, qualifier) <==> |family| > 255 || |qualifier| > 65535
  {
    hide RowPrefix, BigEndian;
    if |family| <= 255 && |qualifier| <= 65535 {
      var length, size := [|family|], BigEndian(|qualifier|, 2);
      var x := length + family + [0] + size + qualifier + [0];
      assert ColumnOf(row, family, qualifier) == RowPrefix(row) + x;
      assert ColumnOf(other, family, qualifier) == RowPrefix(other) + x;
      RowPrefixFree(row, x, other, x);
    }
  }

  /** The first entry of the column that the names address, for whatever row. */
  ghost predicate ComesFirst(db: DB, row: bytes, r: Rule, ts: int) {
    forall k :: k in db && Within(k, ColumnRange(row, r.family, r.qualifier)) ==> !Less(k, CellKey(Cell(row, r.family, r.qualifier, ts)))
  }

  /** What a later request on any row reads after a rule with such names has run for one row: what the
      rule wrote, or, if another entry under the names comes before it, what the rule read itself. */
  lemma OtherRowReads(db: DB, row: bytes, other: bytes, r: Rule, ts: int)
    requires |r.family| > 255 || |r.qualifier| > 65535
    requires IsInt64(ts) && ts >= MIN_INT64 + 0x100_0000_0000_0000
    requires RunRule(Outcome(db, map[]), row, r, ts).Ok?
    ensures var o := RunRule(Outcome(db, map[]), row, r, ts).value;
      ReadCell(o.view, other, r.family, r.qualifier)
      == if ComesFirst(db, row, r, ts) then o.modified[ColumnOfRule(r)] else ReadCell(db, row, r.family, r.qualifier)
  {
    var o := RunRule(Outcome(db, map[]), row, r, ts).value;
    var key := CellKey(Cell(row, r.family, r.qualifier, ts));
    KeyInColumn(row, r, ts);
    hide CellKey, ColumnOf, NewValue, ReadCell, ComesFirst;
    assert o.view == db[key := o.modified[ColumnOfRule(r)]];
    if ComesFirst(db, row, r, ts) {
      FirstEntryRead(db, row, r, ts, o.modified[ColumnOfRule(r)]);
    } else {
      EarlierEntryRead(db, row, r, ts, o.modified[ColumnOfRule(r)]);
    }
    if row != other {
      RowsShareAColumnIff(row, other, r.family, r.qualifier);
      SameColumnSameRead(o.view, row, other, r.family, r.qualifier);
    }
  }

  lemma EarlierEntryRead(db: DB, row: bytes, r: Rule, ts: int, v: bytes)
    requires !ComesFirst(db, row, r, ts)
    ensures ReadCell(db[CellKey(Cell(row, r.family, r.qualifier, ts)) := v], row, r.family, r.qualifier)
         == ReadCell(db, row, r.family, r.qualifier)
  {
    hide CellKey, ColumnOf, Within, ColumnRange, Iterate;
    var key, range := CellKey(Cell(row, r.family, r.qualifier, ts)), ColumnRange(row, r.family, r.qualifier);
    var k :| k in db && Within(k, range) && Less(k, key);
    SameFirst(db, key, v, range, k);
  }

  lemma LessNotBoth(a: bytes, b: bytes)
    ensures !(Less(a, b) && Less(b, a))
  {
    if Less(a, b) { LessAsymmetric(a, b); }
  }

  /** An entry behind another one does not change which entry is the first. */
  lemma SameFirst(db: DB, key: bytes, v: bytes, range: KeyRange, k: bytes)
    requires k in db && Within(k, range) && Less(k, key)
    ensures var a, b := Iterate(db[key := v], range), Iterate(db, range); a != [] && b != [] && a[0] == b[0] && a[0] != key
  {
    var a, b := Iterate(db[key := v], range), Iterate(db, range);
    assert k in a && k in b && a[0] in a && b[0] in b;
    LessIrreflexive(key);
    LessAsymmetric(k, key);
    var i :| 0 <= i < |a| && a[i] == k;
    var j :| 0 <= j < |b| && b[j] == k;
    assert a[0] != key;
    assert a[0] in b && b[0] in a;
    var x :| 0 <= x < |b| && b[x] == a[0];
    var y :| 0 <= y < |a| && a[y] == b[0];
    LessNotBoth(a[0], b[0]);
  }

  lemma KeyInColumn(row: bytes, r: Rule, ts: int)
    requires IsInt64(ts) && ts >= MIN_INT64 + 0x100_0000_0000_0000
    ensures var key := CellKey(Cell(row, r.family, r.qualifier, ts));
      ColumnOf(row, r.family, r.qualifier) <= key && Within(key, ColumnRange(row, r.family, r.qualifier))
  {
    hide ColumnOf, BigEndian, InvertedTimestamp;
    var cp, inv := ColumnOf(row, r.family, r.qualifier), InvertedTimestamp(ts);
    InvertedTimestampExact(ts);
    TopByte(inv);
    UnderEndKey(cp + BigEndian(inv, 8), cp);
  }

  lemma FirstEntryRead(db: DB, row: bytes, r: Rule, ts: int, v: bytes)
    requires var key := CellKey(Cell(row, r.family, r.qualifier, ts));
      ColumnOf(row, r.family, r.qualifier) <= key && Within(key, ColumnRange(row, r.family, r.qualifier))
    requires ComesFirst(db, row, r, ts)
    ensures ReadCell(db[CellKey(Cell(row, r.family, r.qualifier, ts)) := v], row, r.family, r.qualifier) == v
  {
    hide CellKey, ColumnOf, Within, ColumnRange;
    var key, range := CellKey(Cell(row, r.family, r.qualifier, ts)), ColumnRange(row, r.family, r.qualifier);
    var ks := Iterate(db[key := v], range);
    assert key in ks;
    var j :| 0 <= j < |ks| && ks[j] == key;
    assert ks[0] in ks;
    LessIrreflexive(key);
  }

  lemma SameColumnSameRead(db: DB, row: bytes, other: bytes, family: bytes, qualifier: bytes)
    requires ColumnOf(row, family, qualifier) == ColumnOf(other, family, qualifier)
    ensures ReadCell(db, row, family, qualifier) == ReadCell(db, other, family, qualifier)
  {
    hide ColumnOf, Iterate;
  }

  /* ---- Requests at the same time ---- */

  /** A request locks nothing: two that read before either applies both work on the old value, and
      the second write wins.  One after the other, the second would have worked on the first's value. */
  lemma UpdateIsLost(t: Table, row: bytes, r: Rule, ts1: int, ts2: int)
    requires ValidTable(t) && Addressable([r], ts1) && Addressable([r], ts2) && ts1 <= ts2
    requires forall c :: c in t && c.row == row && (c.family, c.qualifier) == ColumnOfRule(r) ==> c.ts <= ts1
    requires NewValue(Latest(t, row, r.family, r.qualifier), r.action).Ok?
    ensures var db, v := EncodeTable(t), NewValue(Latest(t, row, r.family, r.qualifier), r.action).value;
      var key1, key2 := CellKey(Cell(row, r.family, r.qualifier, ts1)), CellKey(Cell(row, r.family, r.qualifier, ts2));
      && RunRule(Outcome(db, map[]), row, r, ts1) == Ok(Outcome(db[key1 := v], map[ColumnOfRule(r) := v]))
      && RunRule(Outcome(db, map[]), row, r, ts2) == Ok(Outcome(db[key2 := v], map[ColumnOfRule(r) := v]))
      && ReadCell(db[key1 := v][key2 := v], row, r.family, r.qualifier) == v
      && ReadCell(db[key1 := v], row, r.family, r.qualifier) == v
  {
    hide CellKey, ReadCell, NewValue, EncodeTable;
    assert [r][0] == r;
    var v := NewValue(Latest(t, row, r.family, r.qualifier), r.action).value;
    var c1, c2 := Cell(row, r.family, r.qualifier, ts1), Cell(row, r.family, r.qualifier, ts2);
    ReadIsLatest(t, row, r.family, r.qualifier);
    SetWrites(t, c1, v);
    SetWrites(t[c1 := v], c2, v);
    NewestDecides(t[c1 := v], row, r.family, r.qualifier, c1);
    NewestDecides(t[c1 := v][c2 := v], row, r.family, r.qualifier, c2);
    ReadIsLatest(t[c1 := v], row, r.family, r.qualifier);
    ReadIsLatest(t[c1 := v][c2 := v], row, r.family, r.qualifier);
  }
}
