/** Filters without counters judge each cell on its own, as documented: a chain keeps what all of its
    filters keep, an interleave what one of them keeps, a condition decides cell by cell.  With
    counters the branches of an interleave are not independent (pkg/bigtable/filter.go). */
module StatelessFilters {
  import opened Bytes
  import opened Encoding
  import opened Filter
  import opened FilterMeaning
  import opened FilterLeaves
  import opened Scan

  /** No counter anywhere in the filter. */
  ghost predicate Stateless(f: Filter) {
    match f
    case Chain(fs) => forall g :: g in fs ==> Stateless(g)
    case Interleave(fs) => forall g :: g in fs ==> Stateless(g)
    case Condition(p, t, e) =>
      (p.Some? ==> Stateless(p.value)) && (t.Some? ==> Stateless(t.value)) && (e.Some? ==> Stateless(e.value))
    case _ => IsLeaf(f)
  }

  /** The verdict on one cell, whatever row it is in. */
  ghost predicate Passes(f: Filter, c: CellInfo) {
    match f
    case Chain(fs) => forall g :: g in fs ==> Passes(g, c)
    case Interleave(fs) => exists g :: g in fs && Passes(g, c)
    case Condition(p, t, e) =>
      if p.None? || Passes(p.value, c) then t.None? || Passes(t.value, c) else e.Some? && Passes(e.value, c)
    case _ => Kept(f, [c]) == [c]
  }

  type Judge = CellInfo -> bool

  function Judged(row: Row, p: Judge): (m: seq<bool>)
    ensures |m| == |row|
    decreases |row|
  {
    if row == [] then [] else [p(row[0])] + Judged(row[1..], p)
  }

  lemma {:induction false} JudgedAt(row: Row, p: Judge, i: nat)
    requires i < |row|
    ensures Judged(row, p)[i] == p(row[i])
    decreases |row|
  {
    if i > 0 { JudgedAt(row[1..], p, i - 1); }
  }

  lemma {:induction false} SameJudge(row: Row, p: Judge, q: Judge)
    requires forall c :: c in row ==> p(c) == q(c)
    ensures Judged(row, p) == Judged(row, q)
    decreases |row|
  {
    if row != [] { SameJudge(row[1..], p, q); }
  }

  function Always(b: bool): Judge { (_: CellInfo) => b }

  function Split(p: Judge, q: Judge, r: Judge): Judge { (c: CellInfo) => if p(c) then q(c) else r(c) }

  lemma {:induction false} ConstJudge(row: Row, b: bool)
    ensures Judged(row, Always(b)) == Const(b, |row|)
    decreases |row|
  {
    if row != [] { ConstJudge(row[1..], b); }
  }

  /** Handing the two parts of a row to two judges is one judge. */
  lemma {:induction false} WeaveJudges(row: Row, p: Judge, q: Judge, r: Judge)
    ensures var m := Judged(row, p);
      && |Select(row, m, true)| == Count(m, true) && |Select(row, m, false)| == Count(m, false)
      && Weave(m, Judged(Select(row, m, true), q), Judged(Select(row, m, false), r))
         == Judged(row, Split(p, q, r))
    decreases |row|
  {
    var m := Judged(row, p);
    SelectLength(row, m, true);
    SelectLength(row, m, false);
    if row != [] {
      WeaveJudges(row[1..], p, q, r);
      var rest, b := Judged(row[1..], p), p(row[0]);
      assert m == [b] + rest && m[1..] == rest;
      var t, f := Judged(Select(row, m, true), q), Judged(Select(row, m, false), r);
      if b {
        assert Select(row, m, true)[1..] == Select(row[1..], rest, true);
        assert t[0] == q(row[0]) && t[1..] == Judged(Select(row[1..], rest, true), q);
      } else {
        assert Select(row, m, false)[1..] == Select(row[1..], rest, false);
        assert f[0] == r(row[0]) && f[1..] == Judged(Select(row[1..], rest, false), r);
      }
    }
  }

  /** No two cells of the row have the same family, qualifier and timestamp, as in every stored row. */
  ghost predicate OneEach(row: Row) { forall i, j :: 0 <= i < j < |row| ==> !SameCell(row[i], row[j]) }

  lemma VisitsAreOneEach(row: Row, reversed: bool)
    requires OneRow(row) && InCellOrder(row, reversed)
    ensures OneEach(row)
  {
    hide CellLess;
    forall i, j | 0 <= i < j < |row| ensures !SameCell(row[i], row[j]) {
      if SameCell(row[i], row[j]) {
        assert row[i].cell == row[j].cell;
        NotLess(row[i].cell);
      }
    }
  }

  lemma NotLess(c: Cell)
    ensures !CellLess(c, c)
  {
    LessIrreflexive(c.row);
    LessIrreflexive(c.family);
    LessIrreflexive(c.qualifier);
  }

  lemma {:induction false} SelectIsPart(row: Row, m: seq<bool>, b: bool)
    requires |m| == |row| && OneEach(row)
    ensures OneEach(Select(row, m, b)) && forall c :: c in Select(row, m, b) ==> c in row
    decreases |row|
  {
    hide SameCell;
    if row != [] {
      assert forall i :: 0 <= i < |row[1..]| ==> row[1..][i] == row[i + 1];
      SelectIsPart(row[1..], m[1..], b);
      var rest := Select(row[1..], m[1..], b);
      forall j | 0 <= j < |rest| ensures !SameCell(row[0], rest[j]) {
        assert rest[j] in row[1..];
        var k :| 0 <= k < |row[1..]| && row[1..][k] == rest[j];
        assert !SameCell(row[0], row[k + 1]);
      }
    }
  }

  ghost function JudgeOf(f: Filter): Judge { c => Passes(f, c) }

  /** In such a row a filter without counters is its verdict on each cell. */
  lemma {:induction false} PassesCellByCell(f: Filter, row: Row)
    requires Stateless(f) && OneEach(row)
    ensures Mask(f, row) == Judged(row, JudgeOf(f))
    decreases f, 1
  {
    match f
    case Chain(fs) =>
      ChainJudged(fs, row);
      SameJudge(row, AllOf(fs), JudgeOf(f));
    case Interleave(fs) =>
      CascadeJudged(fs, row);
      SameJudge(row, AnyOf(fs), JudgeOf(f));
      OneEachIdentity(row);
      DistinctCellsNeverRepeat(row, CascadeMask(fs, row), {});
    case Condition(p, t, e) => ConditionJudged(f, p, t, e, row);
    case _ => LeafJudged(f, row);
  }

  lemma OneEachIdentity(row: Row)
    requires OneEach(row)
    ensures forall i, j :: 0 <= i < j < |row| ==> IdentityOf(row[i]) != IdentityOf(row[j])
  {
    assert forall i, j :: 0 <= i < j < |row| && IdentityOf(row[i]) == IdentityOf(row[j]) ==> SameCell(row[i], row[j]);
  }

  lemma LeafJudged(f: Filter, row: Row)
    requires IsLeaf(f)
    ensures Mask(f, row) == Judged(row, JudgeOf(f))
  {
    hide Mask, Passes;
    forall i | 0 <= i < |row| ensures Mask(f, row)[i] == Judged(row, JudgeOf(f))[i] {
      LeafMaskAt(f, row, i);
      LeafAlone(f, row[i]);
      JudgedAt(row, JudgeOf(f), i);
    }
  }

  lemma LeafMaskAt(f: Filter, row: Row, i: nat)
    requires IsLeaf(f) && i < |row|
    ensures Mask(f, row)[i] == Test(f, row[i])
  {
    hide Test;
  }

  lemma LeafAlone(f: Filter, c: CellInfo)
    requires IsLeaf(f)
    ensures Test(f, c) <==> Passes(f, c)
  {
    hide Test;
    assert Mask(f, [c]) == [Test(f, c)];
    assert Select([c], [Test(f, c)], true) == if Test(f, c) then [c] else [];
  }

  ghost function AllOf(fs: seq<Filter>): Judge { c => forall g :: g in fs ==> Passes(g, c) }
  ghost function AnyOf(fs: seq<Filter>): Judge { c => exists g :: g in fs && Passes(g, c) }

  lemma {:induction false} ChainJudged(fs: seq<Filter>, row: Row)
    requires (forall g :: g in fs ==> Stateless(g)) && OneEach(row)
    ensures ChainMask(fs, row) == Judged(row, AllOf(fs))
    decreases fs, 0
  {
    if fs == [] {
      ConstJudge(row, true);
      SameJudge(row, Always(true), AllOf(fs));
    } else {
      PassesCellByCell(fs[0], row);
      SelectIsPart(row, Mask(fs[0], row), true);
      ChainJudged(fs[1..], Select(row, Mask(fs[0], row), true));
      ChainStep(fs, row);
    }
  }

  lemma ChainStep(fs: seq<Filter>, row: Row)
    requires fs != [] && Mask(fs[0], row) == Judged(row, JudgeOf(fs[0]))
    requires var kept := Select(row, Mask(fs[0], row), true); ChainMask(fs[1..], kept) == Judged(kept, AllOf(fs[1..]))
    ensures ChainMask(fs, row) == Judged(row, AllOf(fs))
  {
    hide Mask, AllOf, JudgeOf;
    var p, q := JudgeOf(fs[0]), AllOf(fs[1..]);
    WeaveJudges(row, p, q, Always(false));
    ConstJudge(Select(row, Mask(fs[0], row), false), false);
    FirstOrRest(fs);
    SameJudge(row, Split(p, q, Always(false)), AllOf(fs));
  }

  lemma {:induction false} CascadeJudged(fs: seq<Filter>, row: Row)
    requires (forall g :: g in fs ==> Stateless(g)) && OneEach(row)
    ensures CascadeMask(fs, row) == Judged(row, AnyOf(fs))
    decreases fs, 0
  {
    if fs == [] {
      ConstJudge(row, false);
      SameJudge(row, Always(false), AnyOf(fs));
    } else {
      PassesCellByCell(fs[0], row);
      SelectIsPart(row, Mask(fs[0], row), false);
      CascadeJudged(fs[1..], Select(row, Mask(fs[0], row), false));
      CascadeStep(fs, row);
    }
  }

  lemma CascadeStep(fs: seq<Filter>, row: Row)
    requires fs != [] && Mask(fs[0], row) == Judged(row, JudgeOf(fs[0]))
    requires var left := Select(row, Mask(fs[0], row), false); CascadeMask(fs[1..], left) == Judged(left, AnyOf(fs[1..]))
    ensures CascadeMask(fs, row) == Judged(row, AnyOf(fs))
  {
    hide Mask, AnyOf, JudgeOf;
    var p, r := JudgeOf(fs[0]), AnyOf(fs[1..]);
    WeaveJudges(row, p, Always(true), r);
    ConstJudge(Select(row, Mask(fs[0], row), true), true);
    FirstOrRest(fs);
    SameJudge(row, Split(p, Always(true), r), AnyOf(fs));
  }

  lemma FirstOrRest(fs: seq<Filter>)
    requires fs != []
    ensures forall c :: AllOf(fs)(c) <==> JudgeOf(fs[0])(c) && AllOf(fs[1..])(c)
    ensures forall c :: AnyOf(fs)(c) <==> JudgeOf(fs[0])(c) || AnyOf(fs[1..])(c)
  {
    assert forall g :: g in fs <==> g == fs[0] || g in fs[1..];
  }

  ghost function BranchJudge(f: Option<Filter>, default: bool): Judge {
    c => if f.Some? then Passes(f.value, c) else default
  }

  lemma {:induction false} BranchJudged(f: Option<Filter>, default: bool, row: Row)
    requires (f.Some? ==> Stateless(f.value)) && OneEach(row)
    ensures BranchMask(f, default, row) == Judged(row, BranchJudge(f, default))
    decreases f, 2
  {
    if f.Some? {
      PassesCellByCell(f.value, row);
      SameJudge(row, JudgeOf(f.value), BranchJudge(f, default));
    } else {
      ConstJudge(row, default);
      SameJudge(row, Always(default), BranchJudge(f, default));
    }
  }

  ghost function BranchMask(f: Option<Filter>, default: bool, row: Row): (m: seq<bool>)
    ensures |m| == |row|
  {
    if f.Some? then Mask(f.value, row) else Const(default, |row|)
  }

  lemma {:induction false} ConditionJudged(f: Filter, p: Option<Filter>, t: Option<Filter>, e: Option<Filter>, row: Row)
    requires f == Condition(p, t, e) && Stateless(f) && OneEach(row)
    ensures Mask(f, row) == Judged(row, JudgeOf(f))
    decreases f, 0
  {
    hide OneEach, JudgeOf, BranchJudge;
    var test, q, r := BranchJudge(p, true), BranchJudge(t, true), BranchJudge(e, false);
    var m := Judged(row, test);
    BranchJudged(p, true, row);
    SelectLength(row, m, true);
    SelectLength(row, m, false);
    SelectIsPart(row, m, true);
    SelectIsPart(row, m, false);
    BranchJudged(t, true, Select(row, m, true));
    BranchJudged(e, false, Select(row, m, false));
    ConditionUnfolds(f, p, t, e, row, m);
    WeaveJudges(row, test, q, r);
    ConditionPasses(f, p, t, e);
    SameJudge(row, Split(test, q, r), JudgeOf(f));
  }

  lemma ConditionUnfolds(f: Filter, p: Option<Filter>, t: Option<Filter>, e: Option<Filter>, row: Row, m: seq<bool>)
    requires f == Condition(p, t, e) && m == BranchMask(p, true, row)
    ensures |Select(row, m, true)| == Count(m, true) && |Select(row, m, false)| == Count(m, false)
    ensures Mask(f, row)
         == Weave(m, BranchMask(t, true, Select(row, m, true)), BranchMask(e, false, Select(row, m, false)))
  {
    SelectLength(row, m, true);
    SelectLength(row, m, false);
  }

  lemma ConditionPasses(f: Filter, p: Option<Filter>, t: Option<Filter>, e: Option<Filter>)
    requires f == Condition(p, t, e)
    ensures forall c :: Split(BranchJudge(p, true), BranchJudge(t, true), BranchJudge(e, false))(c) == JudgeOf(f)(c)
  {
  }

  /** What such a filter keeps of a stored row. */
  lemma StatelessKeeps(f: Filter, row: Row)
    requires Stateless(f) && OneEach(row)
    ensures Kept(f, row) == Where(row, JudgeOf(f))
  {
    PassesCellByCell(f, row);
    SelectJudged(row, JudgeOf(f));
  }

  lemma {:induction false} SelectJudged(row: Row, p: Judge)
    ensures Select(row, Judged(row, p), true) == Where(row, p)
    decreases |row|
  {
    if row != [] {
      SelectJudged(row[1..], p);
      assert Judged(row, p)[1..] == Judged(row[1..], p);
    }
  }

  /** Two branches that each keep the first cell of the row keep the first two: the second one counts
      only what the first one let through. */
  lemma CountersShareARow(a: CellInfo, b: CellInfo)
    requires !SameCell(a, b)
    ensures Kept(CellsPerRowLimit(1), [a, b]) == [a]
    ensures Kept(Interleave([CellsPerRowLimit(1), CellsPerRowLimit(1)]), [a, b]) == [a, b]
  {
    var f := CellsPerRowLimit(1);
    OneOf(a, b);
    assert Mask(f, [a, b]) == [true, false] && Mask(f, [b]) == [true];
    assert [f][1..] == [] && [f, f][1..] == [f];
    assert CascadeMask([f], [b]) == [true];
    assert CascadeMask([f, f], [a, b]) == [true, true];
    assert DropRepeats([a, b], [true, true], {}) == [true, true];
  }

  lemma OneOf(a: CellInfo, b: CellInfo)
    ensures Select([a, b], [true, false], true) == [a] && Select([a, b], [true, false], false) == [b]
    ensures Select([a, b], [true, true], true) == [a, b]
  {
    assert [a, b][1..] == [b] && [true, false][1..] == [false] && [true, true][1..] == [true];
    Single(b, true);
    Single(b, false);
  }

  lemma Single(c: CellInfo, b: bool)
    ensures Select([c], [b], b) == [c] && Select([c], [b], !b) == []
  {
    assert [c][1..] == [] && [b][1..] == [];
  }
}
