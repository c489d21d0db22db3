/** The evaluator tree computes the meaning of the filter. */
module FilterMeaning {
  import opened Bytes
  import opened Encoding
  import opened Filter

  /* ---- Stage laws, for every state of the stages ---- */

  lemma ChainOfNothing(row: Row)
    ensures Verdicts(ChainStage([]), row) == Const(true, |row|)
    decreases |row|
  {
    if row != [] { ChainOfNothing(row[1..]); }
  }

  lemma {:induction false} ChainLaw(es: seq<Evaluator>, row: Row)
    requires es != []
    ensures var m := Verdicts(es[0], row);
      && |Select(row, m, true)| == Count(m, true)
      && Verdicts(ChainStage(es), row)
         == Weave(m, Verdicts(ChainStage(es[1..]), Select(row, m, true)), Const(false, Count(m, false)))
    decreases |row|
  {
    SelectLength(row, Verdicts(es[0], row), true);
    if row != [] {
      var (e, b) := Step(es[0], row[0]);
      var es' := StepChain(es, row[0]).0;
      assert Step(ChainStage(es), row[0]) == (ChainStage(es'), StepChain(es, row[0]).1);
      assert es'[0] == e;
      ChainLaw(es', row[1..]);
      if b {
        assert es'[1..] == StepChain(es[1..], row[0]).0;
      } else {
        assert es'[1..] == es[1..];
        assert Const(false, Count(Verdicts(es[0], row), false))[1..] == Const(false, Count(Verdicts(e, row[1..]), false));
      }
    }
  }

  lemma {:induction false} CascadeLaw(es: seq<Evaluator>, emitted: set<Identity>, row: Row)
    ensures Verdicts(InterleaveStage(es, emitted), row) == DropRepeats(row, CascadeVerdicts(es, row), emitted)
    decreases |row|
  {
    if row != [] {
      var (es', b) := StepCascade(es, row[0]);
      CascadeLaw(es', if b then emitted + {IdentityOf(row[0])} else emitted, row[1..]);
      CascadeLaw(es', emitted, row[1..]);
    }
  }

  /** The verdicts of an interleave before repetitions are dropped. */
  function CascadeVerdicts(es: seq<Evaluator>, row: Row): (m: seq<bool>)
    ensures |m| == |row|
    decreases |row|
  {
    if row == [] then [] else [StepCascade(es, row[0]).1] + CascadeVerdicts(StepCascade(es, row[0]).0, row[1..])
  }

  lemma CascadeOfNothing(row: Row)
    ensures CascadeVerdicts([], row) == Const(false, |row|)
    decreases |row|
  {
    if row != [] { CascadeOfNothing(row[1..]); }
  }

  lemma {:induction false} CascadeSplits(es: seq<Evaluator>, row: Row)
    requires es != []
    ensures var m := Verdicts(es[0], row);
      && |Select(row, m, false)| == Count(m, false)
      && CascadeVerdicts(es, row)
         == Weave(m, Const(true, Count(m, true)), CascadeVerdicts(es[1..], Select(row, m, false)))
    decreases |row|
  {
    SelectLength(row, Verdicts(es[0], row), false);
    if row != [] {
      var (e, b) := Step(es[0], row[0]);
      var es' := StepCascade(es, row[0]).0;
      assert es'[0] == e;
      CascadeSplits(es', row[1..]);
      if !b {
        assert es'[1..] == StepCascade(es[1..], row[0]).0;
      } else {
        assert es'[1..] == es[1..];
        assert Const(true, Count(Verdicts(es[0], row), true))[1..] == Const(true, Count(Verdicts(e, row[1..]), true));
      }
    }
  }

  /** What an optional branch says: an absent one has a fixed verdict. */
  function BranchVerdicts(e: Option<Evaluator>, default: bool, row: Row): (m: seq<bool>)
    ensures |m| == |row|
  {
    if e.Some? then Verdicts(e.value, row) else Const(default, |row|)
  }

  lemma {:induction false} ConditionLaw(test: Evaluator, t: Option<Evaluator>, f: Option<Evaluator>, row: Row)
    ensures var m := Verdicts(test, row);
      && |Select(row, m, true)| == Count(m, true) && |Select(row, m, false)| == Count(m, false)
      && Verdicts(ConditionStage(test, t, f), row)
         == Weave(m, BranchVerdicts(t, true, Select(row, m, true)), BranchVerdicts(f, false, Select(row, m, false)))
    decreases |row|
  {
    SelectLength(row, Verdicts(test, row), true);
    SelectLength(row, Verdicts(test, row), false);
    if row != [] {
      var e := ConditionStage(test, t, f);
      var e' := Step(e, row[0]).0;
      ConditionLaw(e'.test, e'.onTrue, e'.onFalse, row[1..]);
      var m, m' := Verdicts(test, row), Verdicts(e'.test, row[1..]);
      assert Const(true, Count(m, true))[if m[0] then 1 else 0..] == Const(true, Count(m', true));
      assert Const(false, Count(m, false))[if m[0] then 0 else 1..] == Const(false, Count(m', false));
    }
  }

  lemma {:induction false} StageLaw(f: Filter, row: Row)
    ensures Verdicts(Stage(f), row) == seq(|row|, i requires 0 <= i < |row| => Test(f, row[i]))
    decreases |row|
  {
    hide Test;
    if row != [] { StageLaw(f, row[1..]); }
  }

  lemma {:induction false} OffsetLaw(n: int, seen: int, row: Row)
    ensures Verdicts(OffsetStage(n, seen), row) == seq(|row|, i => seen + i >= n)
    decreases |row|
  {
    if row != [] { OffsetLaw(n, seen + 1, row[1..]); }
  }

  lemma {:induction false} LimitLaw(n: int, passed: int, row: Row)
    ensures Verdicts(LimitStage(n, passed), row) == seq(|row|, i => passed + i < n)
    decreases |row|
  {
    if row != [] { LimitLaw(n, if passed < n then passed + 1 else passed, row[1..]); }
  }

  /** The counts are what the cells so far contribute, capped at the limit. */
  ghost predicate CountsFor(counts: map<bytes, int>, n: int, before: Row) {
    forall key ::
      (if key in counts then counts[key] else 0)
      == (if Occurrences(before, key) < n then Occurrences(before, key) else if n < 0 then 0 else n)
  }

  lemma CountsStep(n: int, counts: map<bytes, int>, before: Row, c: CellInfo)
    requires CountsFor(counts, n, before)
    ensures var (e, b) := Step(ColumnLimitStage(n, counts), c);
      && b == (Occurrences(before, ColumnKey(c.cell)) < n)
      && e.ColumnLimitStage? && e.limit == n && CountsFor(e.counts, n, before + [c])
  {
    hide ColumnKey;
    assert (before + [c])[..|before|] == before;
    var e := Step(ColumnLimitStage(n, counts), c).0;
    forall key ensures Occurrences(before + [c], key) == Occurrences(before, key) + if ColumnKey(c.cell) == key then 1 else 0 {}
  }

  lemma {:induction false} ColumnLimitLaw(n: int, counts: map<bytes, int>, before: Row, row: Row, i: nat)
    requires CountsFor(counts, n, before) && i < |row|
    ensures Verdicts(ColumnLimitStage(n, counts), row)[i] == (Occurrences(before + row[..i], ColumnKey(row[i].cell)) < n)
    decreases i
  {
    hide ColumnKey, Occurrences, CountsFor;
    CountsStep(n, counts, before, row[0]);
    if i == 0 {
      assert before + row[..0] == before;
    } else {
      var e := Step(ColumnLimitStage(n, counts), row[0]).0;
      ColumnLimitLaw(n, e.counts, before + [row[0]], row[1..], i - 1);
      assert row[..i] == [row[0]] + row[1..][..i - 1];
      assert before + row[..i] == before + [row[0]] + row[1..][..i - 1];
    }
  }

  /* ---- The theorem ---- */

  lemma {:induction false} EvaluatorMeansFilter(f: Filter, row: Row)
    requires Build(f).Some?
    ensures Verdicts(Build(f).value, row) == Mask(f, row)
    decreases f, 1
  {
    hide Verdicts, Step, Test, Weave, DropRepeats, ChainMask, CascadeMask, CascadeVerdicts, Occurrences;
    var e := Build(f).value;
    match f
    case Chain(fs) => ChainMeans(fs, row);
    case Interleave(fs) =>
      CascadeLaw(e.stages, {}, row);
      CascadeMeans(fs, row);
    case Condition(_, _, _) => ConditionMeans(f, row);
    case CellsPerRowOffset(n) => OffsetLaw(n, 0, row);
    case CellsPerRowLimit(n) => LimitLaw(n, 0, row);
    case CellsPerColumnLimit(n) => ColumnLimitMeans(n, row);
    case _ => StageLaw(f, row);
  }

  lemma NoCounts(n: int)
    ensures CountsFor(map[], n, [])
  {
  }

  lemma {:induction false} ColumnLimitMeans(n: int, row: Row)
    ensures Verdicts(ColumnLimitStage(n, map[]), row) == Mask(CellsPerColumnLimit(n), row)
  {
    hide Verdicts, Occurrences, ColumnKey, CountsFor;
    assert CountsFor(map[], n, []) by { NoCounts(n); }
    forall i | 0 <= i < |row| ensures Verdicts(ColumnLimitStage(n, map[]), row)[i] == Mask(CellsPerColumnLimit(n), row)[i] {
      ColumnLimitLaw(n, map[], [], row, i);
      assert [] + row[..i] == row[..i];
    }
  }

  lemma {:induction false} ConditionMeans(f: Filter, row: Row)
    requires f.Condition? && Build(f).Some?
    ensures Verdicts(Build(f).value, row) == Mask(f, row)
    decreases f, 0
  {
    var e := Build(f).value;
    ConditionLaw(e.test, e.onTrue, e.onFalse, row);
    if f.test.Some? { EvaluatorMeansFilter(f.test.value, row); } else { StageLaw(PassAll, row); }
    var m := Verdicts(e.test, row);
    assert m == if f.test.Some? then Mask(f.test.value, row) else Const(true, |row|);
    if f.onTrue.Some? { EvaluatorMeansFilter(f.onTrue.value, Select(row, m, true)); }
    if f.onFalse.Some? { EvaluatorMeansFilter(f.onFalse.value, Select(row, m, false)); }
  }

  lemma {:induction false} ChainMeans(fs: seq<Filter>, row: Row)
    requires BuildAll(fs).Some?
    ensures Verdicts(ChainStage(BuildAll(fs).value), row) == ChainMask(fs, row)
    decreases fs, 0
  {
    var es := BuildAll(fs).value;
    if fs == [] {
      ChainOfNothing(row);
    } else {
      EvaluatorMeansFilter(fs[0], row);
      ChainLaw(es, row);
      assert es[1..] == BuildAll(fs[1..]).value;
      ChainMeans(fs[1..], Select(row, Mask(fs[0], row), true));
    }
  }

  lemma {:induction false} CascadeMeans(fs: seq<Filter>, row: Row)
    requires BuildAll(fs).Some?
    ensures CascadeVerdicts(BuildAll(fs).value, row) == CascadeMask(fs, row)
    decreases fs, 0
  {
    var es := BuildAll(fs).value;
    if fs == [] {
      CascadeOfNothing(row);
    } else {
      EvaluatorMeansFilter(fs[0], row);
      CascadeSplits(es, row);
      assert es[1..] == BuildAll(fs[1..]).value;
      CascadeMeans(fs[1..], Select(row, Mask(fs[0], row), false));
    }
  }

  /* ---- Reset ---- */

  /** One more cell of the row. */
  lemma {:induction false} VerdictsSnoc(e: Evaluator, row: Row, c: CellInfo)
    ensures Verdicts(e, row + [c]) == Verdicts(e, row) + [Step(After(e, row), c).1]
    ensures After(e, row + [c]) == Step(After(e, row), c).0
    decreases |row|
  {
    hide Step;
    if row == [] {
      assert row + [c] == [c] && [c][1..] == [];
    } else {
      VerdictsSnoc(Step(e, row[0]).0, row[1..], c);
      assert (row + [c])[1..] == row[1..] + [c];
    }
  }

  /** Whatever cells an evaluator has seen, a reset forgets them. */
  lemma {:induction false} ResetForgets(e: Evaluator, row: Row)
    ensures Reset(After(e, row)) == Reset(e)
    decreases |row|
  {
    if row != [] {
      ResetForgets(Step(e, row[0]).0, row[1..]);
      ResetForgetsCell(e, row[0]);
    }
  }

  lemma {:induction false} ResetForgetsCell(e: Evaluator, c: CellInfo)
    ensures Reset(Step(e, c).0) == Reset(e)
    decreases e, 1
  {
    match e
    case ChainStage(es) => ResetForgetsChain(es, c);
    case InterleaveStage(es, _) => ResetForgetsCascade(es, c);
    case ConditionStage(test, t, f) =>
      ResetForgetsCell(test, c);
      if t.Some? { ResetForgetsCell(t.value, c); }
      if f.Some? { ResetForgetsCell(f.value, c); }
    case _ =>
  }

  lemma {:induction false} ResetForgetsChain(es: seq<Evaluator>, c: CellInfo)
    ensures ResetAll(StepChain(es, c).0) == ResetAll(es)
    decreases es, 0
  {
    if es != [] {
      ResetForgetsCell(es[0], c);
      ResetForgetsChain(es[1..], c);
      assert StepChain(es, c).0[1..] == if Step(es[0], c).1 then StepChain(es[1..], c).0 else es[1..];
    }
  }

  lemma {:induction false} ResetForgetsCascade(es: seq<Evaluator>, c: CellInfo)
    ensures ResetAll(StepCascade(es, c).0) == ResetAll(es)
    decreases es, 0
  {
    if es != [] {
      ResetForgetsCell(es[0], c);
      ResetForgetsCascade(es[1..], c);
      assert StepCascade(es, c).0[1..] == if Step(es[0], c).1 then es[1..] else StepCascade(es[1..], c).0;
    }
  }

  /** A freshly built tree is in reset state. */
  lemma {:induction false} BuiltIsReset(f: Filter)
    requires Build(f).Some?
    ensures Reset(Build(f).value) == Build(f).value
    decreases f, 1
  {
    match f
    case Chain(fs) => BuiltAllReset(fs);
    case Interleave(fs) => BuiltAllReset(fs);
    case Condition(p, t, e) =>
      if p.Some? { BuiltIsReset(p.value); }
      if t.Some? { BuiltIsReset(t.value); }
      if e.Some? { BuiltIsReset(e.value); }
    case _ =>
  }

  lemma {:induction false} BuiltAllReset(fs: seq<Filter>)
    requires BuildAll(fs).Some?
    ensures ResetAll(BuildAll(fs).value) == BuildAll(fs).value
    decreases fs, 0
  {
    if fs != [] {
      BuiltIsReset(fs[0]);
      BuiltAllReset(fs[1..]);
      assert BuildAll(fs).value[1..] == BuildAll(fs[1..]).value;
    }
  }

  /** A tree that has judged any cells and is then reset judges the next row by its meaning. */
  lemma NoStateLeaks(f: Filter, earlier: Row, row: Row)
    requires Build(f).Some?
    ensures Verdicts(Reset(After(Build(f).value, earlier)), row) == Mask(f, row)
  {
    ResetForgets(Build(f).value, earlier);
    BuiltIsReset(f);
    EvaluatorMeansFilter(f, row);
  }

  /* ---- Laws of the meaning ---- */

  lemma {:induction false} SelectWeave(row: Row, m: seq<bool>, t: seq<bool>)
    requires |m| == |row| && |t| == Count(m, true) == |Select(row, m, true)|
    ensures Select(row, Weave(m, t, Const(false, Count(m, false))), true) == Select(Select(row, m, true), t, true)
    decreases |row|
  {
    if row != [] {
      SelectLength(row[1..], m[1..], true);
      var w := Weave(m, t, Const(false, Count(m, false)));
      if m[0] {
        SelectWeave(row[1..], m[1..], t[1..]);
        assert w[1..] == Weave(m[1..], t[1..], Const(false, Count(m[1..], false)));
        assert Select(row, m, true)[1..] == Select(row[1..], m[1..], true);
      } else {
        assert Const(false, Count(m, false))[1..] == Const(false, Count(m[1..], false));
        SelectWeave(row[1..], m[1..], t);
        assert w[1..] == Weave(m[1..], t, Const(false, Count(m[1..], false)));
      }
    }
  }

  /** A chain is the composition of its filters. */
  lemma ChainComposes(f: Filter, fs: seq<Filter>, row: Row)
    ensures Kept(Chain([f] + fs), row) == Kept(Chain(fs), Kept(f, row))
  {
    var m := Mask(f, row);
    SelectLength(row, m, true);
    var kept := Select(row, m, true);
    assert ([f] + fs)[0] == f && ([f] + fs)[1..] == fs;
    assert Mask(Chain([f] + fs), row) == Weave(m, ChainMask(fs, kept), Const(false, Count(m, false)));
    SelectWeave(row, m, ChainMask(fs, kept));
    assert Mask(Chain(fs), kept) == ChainMask(fs, kept);
  }

  lemma {:induction false} SelectPrefix(row: Row, m: seq<bool>, k: nat)
    requires |m| == |row| && k <= |row| && forall i :: 0 <= i < |m| ==> (m[i] <==> i < k)
    ensures Select(row, m, true) == row[..k] && Select(row, m, false) == row[k..]
    decreases |row|
  {
    if row != [] {
      SelectPrefix(row[1..], m[1..], if k > 0 then k - 1 else 0);
      if k > 0 { assert row[..k] == [row[0]] + row[1..][..k - 1] && row[k..] == row[1..][k - 1..]; }
    }
  }

  function Clamp(n: int, size: nat): nat { if n < 0 then 0 else if n > size then size else n }

  /** The limit takes, the offset drops. */
  lemma LimitTakesOffsetDrops(n: int, row: Row)
    ensures Kept(CellsPerRowLimit(n), row) == row[..Clamp(n, |row|)]
    ensures Kept(CellsPerRowOffset(n), row) == row[Clamp(n, |row|)..]
  {
    var limit := Mask(CellsPerRowLimit(n), row);
    SelectPrefix(row, limit, Clamp(n, |row|));
    SelectComplement(row, limit, Mask(CellsPerRowOffset(n), row));
  }

  lemma {:induction false} SelectComplement(row: Row, m: seq<bool>, m': seq<bool>)
    requires |m| == |m'| == |row| && forall i :: 0 <= i < |m| ==> m'[i] == !m[i]
    ensures Select(row, m', true) == Select(row, m, false)
    decreases |row|
  {
    if row != [] { SelectComplement(row[1..], m[1..], m'[1..]); }
  }

  /** In a row whose cells have distinct identities, as every scanned row has, an interleave
      drops nothing: it keeps what some branch of the cascade keeps. */
  lemma {:induction false} DistinctCellsNeverRepeat(row: Row, m: seq<bool>, emitted: set<Identity>)
    requires |m| == |row|
    requires forall i, j :: 0 <= i < j < |row| ==> IdentityOf(row[i]) != IdentityOf(row[j])
    requires forall i :: 0 <= i < |row| ==> IdentityOf(row[i]) !in emitted
    ensures DropRepeats(row, m, emitted) == m
    decreases |row|
  {
    if row != [] {
      DistinctCellsNeverRepeat(row[1..], m[1..], if m[0] then emitted + {IdentityOf(row[0])} else emitted);
    }
  }
}
