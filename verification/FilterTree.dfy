/** The filter evaluators as objects (pkg/bigtable/filter.go).  The tree is built once; its
    counters and seen-sets live in the heap, and evaluate and reset change them in place. */
module FilterTree {
  import opened Bytes
  import opened Filter
  import opened FilterMeaning

  /** The mutable fields of one evaluator node. */
  class Memory {
    var count: int
    var colCounts: map<bytes, int>
    var seen: set<Identity>

    constructor ()
      ensures count == 0 && colCounts == map[] && seen == {}
    {
      count, colCounts, seen := 0, map[], {};
    }
  }

  datatype Tree =
    | Leaf(filter: Filter)
    | Offset(offset: int, memory: Memory)
    | Limit(limit: int, memory: Memory)
    | ColumnLimit(limit: int, memory: Memory)
    | ChainOf(filters: seq<Tree>)
    | InterleaveOf(filters: seq<Tree>, memory: Memory)
    | ConditionOf(test: Tree, onTrue: Option<Tree>, onFalse: Option<Tree>)

  /* ---- Footprint and abstract value ---- */

  ghost function Cells(t: Tree): set<Memory>
    decreases t, 1
  {
    match t
    case Leaf(_) => {}
    case Offset(_, m) => {m}
    case Limit(_, m) => {m}
    case ColumnLimit(_, m) => {m}
    case ChainOf(ts) => CellsAll(ts)
    case InterleaveOf(ts, m) => CellsAll(ts) + {m}
    case ConditionOf(p, a, b) =>
      Cells(p) + (if a.Some? then Cells(a.value) else {}) + (if b.Some? then Cells(b.value) else {})
  }

  ghost function CellsAll(ts: seq<Tree>): set<Memory>
    decreases ts, 0
  {
    if ts == [] then {} else Cells(ts[0]) + CellsAll(ts[1..])
  }

  /** No two nodes share their fields. */
  ghost predicate Separate(t: Tree)
    decreases t, 1
  {
    match t
    case ChainOf(ts) => SeparateAll(ts)
    case InterleaveOf(ts, m) => SeparateAll(ts) && m !in CellsAll(ts)
    case ConditionOf(p, a, b) =>
      && Separate(p) && (a.Some? ==> Separate(a.value) && Cells(p) !! Cells(a.value))
      && (b.Some? ==> Separate(b.value) && Cells(p) !! Cells(b.value))
      && (a.Some? && b.Some? ==> Cells(a.value) !! Cells(b.value))
    case _ => true
  }

  ghost predicate SeparateAll(ts: seq<Tree>)
    decreases ts, 0
  {
    ts == [] || (Separate(ts[0]) && SeparateAll(ts[1..]) && Cells(ts[0]) !! CellsAll(ts[1..]))
  }

  /** The evaluator that the objects currently represent. */
  ghost function View(t: Tree): Evaluator
    reads Cells(t)
    decreases t, 1
  {
    match t
    case Leaf(f) => Stage(f)
    case Offset(offset, m) => OffsetStage(offset, m.count)
    case Limit(limit, m) => LimitStage(limit, m.count)
    case ColumnLimit(limit, m) => ColumnLimitStage(limit, m.colCounts)
    case ChainOf(ts) => ChainStage(ViewAll(ts))
    case InterleaveOf(ts, m) => InterleaveStage(ViewAll(ts), m.seen)
    case ConditionOf(p, a, b) =>
      ConditionStage(View(p), if a.Some? then Some(View(a.value)) else None, if b.Some? then Some(View(b.value)) else None)
  }

  ghost function ViewAll(ts: seq<Tree>): (es: seq<Evaluator>)
    ensures |es| == |ts|
    reads CellsAll(ts)
    decreases ts, 0
  {
    if ts == [] then [] else [View(ts[0])] + ViewAll(ts[1..])
  }

  /** The objects of a tree exist. */
  lemma {:induction false} CellsExist(t: Tree)
    ensures forall m :: m in Cells(t) ==> allocated(m)
    decreases t, 1
  {
    match t
    case ChainOf(ts) => AllCellsExist(ts);
    case InterleaveOf(ts, _) => AllCellsExist(ts);
    case ConditionOf(p, a, b) =>
      CellsExist(p);
      if a.Some? { CellsExist(a.value); }
      if b.Some? { CellsExist(b.value); }
    case _ =>
  }

  lemma {:induction false} AllCellsExist(ts: seq<Tree>)
    ensures forall m :: m in CellsAll(ts) ==> allocated(m)
    decreases ts, 0
  {
    if ts != [] {
      CellsExist(ts[0]);
      AllCellsExist(ts[1..]);
    }
  }

  /* ---- Siblings ---- */

  lemma {:induction false} Member(ts: seq<Tree>, i: nat)
    requires i < |ts|
    ensures Cells(ts[i]) <= CellsAll(ts) && (SeparateAll(ts) ==> Separate(ts[i])) && ViewAll(ts)[i] == View(ts[i])
    decreases i
  {
    if i > 0 { Member(ts[1..], i - 1); }
  }

  lemma {:induction false} Siblings(ts: seq<Tree>, i: nat, j: nat)
    requires i < j < |ts| && SeparateAll(ts)
    ensures Cells(ts[i]) !! Cells(ts[j])
    decreases i
  {
    if i == 0 { Member(ts[1..], j - 1); } else { Siblings(ts[1..], i - 1, j - 1); }
  }

  /** The children one by one; each owns its objects. */
  ghost predicate Owned(ts: seq<Tree>) {
    && (forall i :: 0 <= i < |ts| ==> Separate(ts[i]) && Cells(ts[i]) <= CellsAll(ts))
    && (forall i, j :: 0 <= i < j < |ts| ==> Cells(ts[i]) !! Cells(ts[j]))
  }

  lemma AreOwned(ts: seq<Tree>)
    requires SeparateAll(ts)
    ensures Owned(ts)
  {
    forall i | 0 <= i < |ts| ensures Separate(ts[i]) && Cells(ts[i]) <= CellsAll(ts) { Member(ts, i); }
    forall i, j | 0 <= i < j < |ts| ensures Cells(ts[i]) !! Cells(ts[j]) { Siblings(ts, i, j); }
  }

  lemma ViewsAre(ts: seq<Tree>, es: seq<Evaluator>)
    requires |es| == |ts|
    ensures ViewAll(ts) == es <==> forall i :: 0 <= i < |ts| ==> View(ts[i]) == es[i]
  {
    forall i | 0 <= i < |ts| ensures ViewAll(ts)[i] == View(ts[i]) { Member(ts, i); }
    if forall i :: 0 <= i < |ts| ==> View(ts[i]) == es[i] { assert ViewAll(ts) == es; }
  }

  /* ---- The evaluators of a list, up to some point ---- */

  /** The first n stages have seen the cell. */
  function Advanced(es: seq<Evaluator>, c: CellInfo, n: nat): (r: seq<Evaluator>)
    requires n <= |es|
    ensures |r| == |es|
  {
    seq(|es|, i requires 0 <= i < |es| => if i < n then Step(es[i], c).0 else es[i])
  }

  /** If the first n stages all answer b, the walk that goes on while the answer is b is decided by
      the stage after them. */
  lemma {:induction false} ChainWalk(es: seq<Evaluator>, c: CellInfo, n: nat)
    requires n <= |es| && forall i :: 0 <= i < n ==> Step(es[i], c).1
    ensures n == |es| ==> StepChain(es, c) == (Advanced(es, c, n), true)
    ensures n < |es| && !Step(es[n], c).1 ==> StepChain(es, c) == (Advanced(es, c, n + 1), false)
    decreases n
  {
    hide Step;
    if n > 0 {
      ChainWalk(es[1..], c, n - 1);
      assert Advanced(es, c, n) == [Step(es[0], c).0] + Advanced(es[1..], c, n - 1);
      assert n < |es| ==> Advanced(es, c, n + 1) == [Step(es[0], c).0] + Advanced(es[1..], c, n);
    } else if es != [] {
      assert Advanced(es, c, 1) == [Step(es[0], c).0] + es[1..];
    }
  }

  lemma {:induction false} CascadeWalk(es: seq<Evaluator>, c: CellInfo, n: nat)
    requires n <= |es| && forall i :: 0 <= i < n ==> !Step(es[i], c).1
    ensures n == |es| ==> StepCascade(es, c) == (Advanced(es, c, n), false)
    ensures n < |es| && Step(es[n], c).1 ==> StepCascade(es, c) == (Advanced(es, c, n + 1), true)
    decreases n
  {
    hide Step;
    if n > 0 {
      CascadeWalk(es[1..], c, n - 1);
      assert Advanced(es, c, n) == [Step(es[0], c).0] + Advanced(es[1..], c, n - 1);
      assert n < |es| ==> Advanced(es, c, n + 1) == [Step(es[0], c).0] + Advanced(es[1..], c, n);
    } else if es != [] {
      assert Advanced(es, c, 1) == [Step(es[0], c).0] + es[1..];
    }
  }

  lemma AdvancedNext(es: seq<Evaluator>, c: CellInfo, n: nat)
    requires n < |es|
    ensures Advanced(es, c, n)[n] == es[n]
    ensures forall i :: 0 <= i < |es| ==> Advanced(es, c, n + 1)[i] == if i == n then Step(es[n], c).0 else Advanced(es, c, n)[i]
  {
    hide Step;
  }

  lemma AdvancedNone(es: seq<Evaluator>, c: CellInfo)
    ensures Advanced(es, c, 0) == es
  {
  }

  /* ---- evaluate ---- */

  method Evaluate(t: Tree, c: CellInfo) returns (b: bool)
    requires Separate(t)
    modifies Cells(t)
    ensures (View(t), b) == Step(old(View(t)), c)
    decreases t, 1
  {
    match t
    case Leaf(f) => b := Test(f, c);
    case Offset(offset, m) =>
      m.count := m.count + 1;
      b := m.count > offset;
    case Limit(limit, m) =>
      if m.count >= limit { return false; }
      m.count := m.count + 1;
      b := true;
    case ColumnLimit(limit, m) =>
      var key := ColumnKey(c.cell);
      var n := if key in m.colCounts then m.colCounts[key] else 0;
      if n >= limit { return false; }
      m.colCounts := m.colCounts[key := n + 1];
      b := true;
    case ChainOf(ts) => b := EvaluateChain(ts, c);
    case InterleaveOf(ts, m) =>
      b := EvaluateCascade(ts, c);
      if b {
        var id := IdentityOf(c);
        if id in m.seen { return false; }
        m.seen := m.seen + {id};
      }
    case ConditionOf(_, _, _) => b := EvaluateCondition(t, c);
  }

  method EvaluateChain(ts: seq<Tree>, c: CellInfo) returns (b: bool)
    requires SeparateAll(ts)
    modifies CellsAll(ts)
    ensures (ViewAll(ts), b) == StepChain(old(ViewAll(ts)), c)
    decreases ts, 0
  {
    hide Step, StepChain, Advanced, View, ViewAll, Cells, CellsAll, Separate, SeparateAll;
    ghost var es := ViewAll(ts);
    AreOwned(ts);
    AllCellsExist(ts);
    AdvancedNone(es, c);
    ViewsAre(ts, es);
    for i := 0 to |ts|
      invariant forall j :: 0 <= j < |ts| ==> View(ts[j]) == Advanced(es, c, i)[j]
      invariant forall j :: 0 <= j < i ==> Step(es[j], c).1
    {
      AdvancedNext(es, c, i);
      label before:
      b := Evaluate(ts[i], c);
      assert forall j :: 0 <= j < |ts| && j != i ==> View(ts[j]) == old@before(View(ts[j]));
      if !b {
        ChainWalk(es, c, i);
        ViewsAre(ts, Advanced(es, c, i + 1));
        return;
      }
    }
    ChainWalk(es, c, |ts|);
    ViewsAre(ts, Advanced(es, c, |ts|));
    b := true;
  }

  method EvaluateCascade(ts: seq<Tree>, c: CellInfo) returns (b: bool)
    requires SeparateAll(ts)
    modifies CellsAll(ts)
    ensures (ViewAll(ts), b) == StepCascade(old(ViewAll(ts)), c)
    decreases ts, 0
  {
    hide Step, StepCascade, Advanced, View, ViewAll, Cells, CellsAll, Separate, SeparateAll;
    ghost var es := ViewAll(ts);
    AreOwned(ts);
    AllCellsExist(ts);
    AdvancedNone(es, c);
    ViewsAre(ts, es);
    for i := 0 to |ts|
      invariant forall j :: 0 <= j < |ts| ==> View(ts[j]) == Advanced(es, c, i)[j]
      invariant forall j :: 0 <= j < i ==> !Step(es[j], c).1
    {
      AdvancedNext(es, c, i);
      label before:
      b := Evaluate(ts[i], c);
      assert forall j :: 0 <= j < |ts| && j != i ==> View(ts[j]) == old@before(View(ts[j]));
      if b {
        CascadeWalk(es, c, i);
        ViewsAre(ts, Advanced(es, c, i + 1));
        return;
      }
    }
    CascadeWalk(es, c, |ts|);
    ViewsAre(ts, Advanced(es, c, |ts|));
    b := false;
  }

  method EvaluateCondition(t: Tree, c: CellInfo) returns (b: bool)
    requires t.ConditionOf? && Separate(t)
    modifies Cells(t)
    ensures (View(t), b) == Step(old(View(t)), c)
    decreases t, 0
  {
    CellsExist(t);
    b := Evaluate(t.test, c);
    if b {
      if t.onTrue.Some? { b := Evaluate(t.onTrue.value, c); }
    } else {
      if t.onFalse.Some? { b := Evaluate(t.onFalse.value, c); }
    }
  }

  /* ---- reset ---- */

  lemma {:induction false} ResetAllAt(es: seq<Evaluator>, i: nat)
    requires i < |es|
    ensures ResetAll(es)[i] == Reset(es[i])
    decreases i
  {
    if i > 0 { ResetAllAt(es[1..], i - 1); }
  }

  method ResetTree(t: Tree)
    requires Separate(t)
    modifies Cells(t)
    ensures View(t) == Reset(old(View(t)))
    decreases t, 1
  {
    CellsExist(t);
    match t
    case Leaf(_) =>
    case Offset(_, m) => m.count := 0;
    case Limit(_, m) => m.count := 0;
    case ColumnLimit(_, m) => m.colCounts := map[];
    case ChainOf(ts) => ResetTrees(ts);
    case InterleaveOf(ts, m) =>
      m.seen := {};
      ResetTrees(ts);
    case ConditionOf(_, _, _) => ResetCondition(t);
  }

  method ResetCondition(t: Tree)
    requires t.ConditionOf? && Separate(t)
    modifies Cells(t)
    ensures View(t) == Reset(old(View(t)))
    decreases t, 0
  {
    CellsExist(t);
    ResetTree(t.test);
    if t.onTrue.Some? { ResetTree(t.onTrue.value); }
    if t.onFalse.Some? { ResetTree(t.onFalse.value); }
  }

  method ResetTrees(ts: seq<Tree>)
    requires SeparateAll(ts)
    modifies CellsAll(ts)
    ensures ViewAll(ts) == ResetAll(old(ViewAll(ts)))
    decreases ts, 0
  {
    hide Reset, ResetAll, View, ViewAll, Cells, CellsAll, Separate, SeparateAll;
    ghost var es := ViewAll(ts);
    AreOwned(ts);
    AllCellsExist(ts);
    ViewsAre(ts, es);
    for i := 0 to |ts|
      invariant forall j :: 0 <= j < |ts| ==> View(ts[j]) == if j < i then ResetAll(es)[j] else es[j]
    {
      ResetAllAt(es, i);
      label before:
      ResetTree(ts[i]);
      assert forall j :: 0 <= j < |ts| && j != i ==> View(ts[j]) == old@before(View(ts[j]));
    }
    ViewsAre(ts, ResetAll(es));
  }

  /* ---- buildEvaluator ---- */

  lemma {:induction false} TreeAdded(ts: seq<Tree>, t: Tree)
    ensures CellsAll(ts + [t]) == CellsAll(ts) + Cells(t)
    ensures SeparateAll(ts) && Separate(t) && CellsAll(ts) !! Cells(t) ==> SeparateAll(ts + [t])
    ensures ViewAll(ts + [t]) == ViewAll(ts) + [View(t)]
    decreases ts
  {
    if ts != [] {
      TreeAdded(ts[1..], t);
      assert (ts + [t])[1..] == ts[1..] + [t];
    } else {
      assert ts + [t] == [t];
    }
  }

  lemma {:induction false} BuildAllOne(fs: seq<Filter>, i: nat)
    requires i < |fs|
    ensures Build(fs[i]).None? ==> BuildAll(fs).None?
    decreases i
  {
    if i > 0 { BuildAllOne(fs[1..], i - 1); }
  }

  lemma {:induction false} BuildAllSnoc(fs: seq<Filter>, f: Filter)
    requires BuildAll(fs).Some? && Build(f).Some?
    ensures BuildAll(fs + [f]) == Some(BuildAll(fs).value + [Build(f).value])
    decreases |fs|
  {
    hide Build;
    if fs != [] {
      BuildAllSnoc(fs[1..], f);
      var e, es := Build(fs[0]).value, BuildAll(fs[1..]).value;
      assert (fs + [f])[0] == fs[0] && (fs + [f])[1..] == fs[1..] + [f];
      assert BuildAll(fs + [f]) == Some([e] + (es + [Build(f).value]));
      assert [e] + (es + [Build(f).value]) == [e] + es + [Build(f).value];
    } else {
      var e := Build(f).value;
      assert fs + [f] == [f] && [f][1..] == [] && [e] + [] == [] + [e] == [e];
      assert BuildAll([f]) == Some([e] + []);
    }
  }

  method BuildEvaluator(f: Filter) returns (r: Option<Tree>)
    ensures r.Some? <==> Build(f).Some?
    ensures r.Some? ==> Separate(r.value) && fresh(Cells(r.value)) && View(r.value) == Build(f).value
    decreases f, 1
  {
    match f
    case Chain(fs) =>
      var ts := BuildEvaluators(fs);
      return if ts.Some? then Some(ChainOf(ts.value)) else None;
    case Interleave(fs) =>
      var ts := BuildEvaluators(fs);
      if ts.None? { return None; }
      AllCellsExist(ts.value);
      var m := new Memory();
      return Some(InterleaveOf(ts.value, m));
    case Condition(_, _, _) => r := BuildCondition(f);
    case CellsPerRowOffset(n) =>
      var m := new Memory();
      return Some(Offset(n, m));
    case CellsPerRowLimit(n) =>
      var m := new Memory();
      return Some(Limit(n, m));
    case CellsPerColumnLimit(n) =>
      var m := new Memory();
      return Some(ColumnLimit(n, m));
    case RowKeyRegex(re) => return if re.Malformed? then None else Some(Leaf(f));
    case FamilyRegex(re) => return if re.Malformed? then None else Some(Leaf(f));
    case QualifierRegex(re) => return if re.Malformed? then None else Some(Leaf(f));
    case ValueRegex(re) => return if re.Malformed? then None else Some(Leaf(f));
    case _ => return Some(Leaf(f));
  }

  method BuildEvaluators(fs: seq<Filter>) returns (r: Option<seq<Tree>>)
    ensures r.Some? <==> BuildAll(fs).Some?
    ensures r.Some? ==> SeparateAll(r.value) && fresh(CellsAll(r.value)) && ViewAll(r.value) == BuildAll(fs).value
    decreases fs, 0
  {
    var ts: seq<Tree> := [];
    hide Build, Cells, View, Separate;
    assert fs[..0] == [];
    for i := 0 to |fs|
      invariant SeparateAll(ts) && fresh(CellsAll(ts))
      invariant BuildAll(fs[..i]) == Some(ViewAll(ts))
    {
      AllCellsExist(ts);
      label before:
      var t := BuildEvaluator(fs[i]);
      if t.None? {
        BuildAllOne(fs, i);
        return None;
      }
      assert ViewAll(ts) == old@before(ViewAll(ts));
      TreeAdded(ts, t.value);
      BuildAllSnoc(fs[..i], fs[i]);
      assert fs[..i + 1] == fs[..i] + [fs[i]];
      ts := ts + [t.value];
    }
    assert fs[..|fs|] == fs;
    return Some(ts);
  }

  method BuildCondition(f: Filter) returns (r: Option<Tree>)
    requires f.Condition?
    ensures r.Some? <==> Build(f).Some?
    ensures r.Some? ==> Separate(r.value) && fresh(Cells(r.value)) && View(r.value) == Build(f).value
    decreases f, 0
  {
    var p: Option<Tree>, a: Option<Tree>, b: Option<Tree> := Some(Leaf(PassAll)), None, None;
    if f.test.Some? {
      p := BuildEvaluator(f.test.value);
      if p.None? { return None; }
    }
    CellsExist(p.value);
    if f.onTrue.Some? {
      a := BuildEvaluator(f.onTrue.value);
      if a.None? { return None; }
      CellsExist(a.value);
    }
    if f.onFalse.Some? {
      b := BuildEvaluator(f.onFalse.value);
      if b.None? { return None; }
    }
    return Some(ConditionOf(p.value, a, b));
  }

  /* ---- Rows ---- */

  /** The cells of one row, one at a time. */
  method EvaluateRow(t: Tree, row: Row) returns (m: seq<bool>)
    requires Separate(t)
    modifies Cells(t)
    ensures m == Verdicts(old(View(t)), row) && View(t) == After(old(View(t)), row)
  {
    hide Step, View, Cells, Separate;
    ghost var e := View(t);
    m := [];
    for i := 0 to |row|
      invariant m == Verdicts(e, row[..i]) && View(t) == After(e, row[..i])
    {
      VerdictsSnoc(e, row[..i], row[i]);
      assert row[..i + 1] == row[..i] + [row[i]];
      var b := Evaluate(t, row[i]);
      m := m + [b];
    }
    assert row[..|row|] == row;
  }

  /** One tree serves any number of rows: built once, reset before each row, its verdicts on every
      row are the filter's meaning on that row alone. */
  method EvaluateRows(f: Filter, rows: seq<Row>) returns (r: Option<seq<seq<bool>>>)
    ensures r.Some? <==> Build(f).Some?
    ensures r.Some? ==> |r.value| == |rows| && forall k :: 0 <= k < |rows| ==> r.value[k] == Mask(f, rows[k])
  {
    hide Step, View, Cells, Separate, Mask, Reset, Build;
    var t := BuildEvaluator(f);
    if t.None? { return None; }
    BuiltIsReset(f);
    var ms: seq<seq<bool>> := [];
    for k := 0 to |rows|
      invariant fresh(Cells(t.value)) && Reset(View(t.value)) == Build(f).value
      invariant |ms| == k && forall j :: 0 <= j < k ==> ms[j] == Mask(f, rows[j])
    {
      ResetTree(t.value);
      EvaluatorMeansFilter(f, rows[k]);
      ResetForgets(Build(f).value, rows[k]);
      var m := EvaluateRow(t.value, rows[k]);
      ms := ms + [m];
    }
    return Some(ms);
  }
}
