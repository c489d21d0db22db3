/** Conditions and interleaves against what the protocol documents of them
    (proto/google/bigtable/v2/data.proto): the server decides cell by cell where the documentation
    speaks of the whole row (pkg/bigtable/filter.go). */
module DocumentedFilters {
  import opened Bytes
  import opened Encoding
  import opened Filter
  import opened FilterMeaning
  import opened FilterLeaves
  import opened StatelessFilters

  /* ---- Conditions ---- */

  /** As documented: if the predicate outputs any cell, the true filter judges the whole row, otherwise
      the false filter; a missing one outputs nothing. */
  function Documented(p: Filter, t: Option<Filter>, e: Option<Filter>, row: Row): Row {
    var branch := if Kept(p, row) != [] then t else e;
    if branch.Some? then Kept(branch.value, row) else []
  }

  lemma {:induction false} SelectAll(row: Row, m: seq<bool>)
    requires |m| == |row|
    ensures Select(row, m, true) == row <==> m == Const(true, |row|)
    ensures Select(row, m, true) == [] <==> m == Const(false, |row|)
    ensures m == Const(true, |row|) ==> Select(row, m, false) == []
    ensures m == Const(false, |row|) ==> Select(row, m, false) == row
    decreases |row|
  {
    if row != [] {
      SelectAll(row[1..], m[1..]);
      SelectLength(row[1..], m[1..], true);
      CountAtMost(m[1..]);
      assert Const(true, |row|)[1..] == Const(true, |row| - 1) && Const(false, |row|)[1..] == Const(false, |row| - 1);
      assert m == [m[0]] + m[1..] && row == [row[0]] + row[1..];
      assert Const(true, |row|) == [true] + Const(true, |row| - 1);
      assert Const(false, |row|) == [false] + Const(false, |row| - 1);
    }
  }

  lemma {:induction false} CountAtMost(m: seq<bool>)
    ensures Count(m, true) <= |m|
    decreases |m|
  {
    if m != [] { CountAtMost(m[1..]); }
  }

  lemma {:induction false} WeaveOne(m: seq<bool>, b: bool, v: seq<bool>)
    requires m == Const(b, |m|) && |v| == |m|
    ensures |v| == Count(m, b) && Count(m, !b) == 0
    ensures (if b then Weave(m, v, []) else Weave(m, [], v)) == v
    decreases |m|
  {
    if m != [] {
      assert m[1..] == Const(b, |m| - 1);
      WeaveOne(m[1..], b, v[1..]);
    }
  }

  lemma {:induction false} WeaveVerdicts(m: seq<bool>)
    ensures Weave(m, Const(true, Count(m, true)), Const(false, Count(m, false))) == m
    decreases |m|
  {
    if m != [] {
      WeaveVerdicts(m[1..]);
      var t, f := Const(true, Count(m, true)), Const(false, Count(m, false));
      if m[0] {
        assert t[1..] == Const(true, Count(m[1..], true)) && f == Const(false, Count(m[1..], false));
      } else {
        assert f[1..] == Const(false, Count(m[1..], false)) && t == Const(true, Count(m[1..], true));
      }
    }
  }

  /** If the predicate keeps the whole row or nothing of it, one branch judges the whole row; a missing
      true filter keeps it. */
  lemma OneBranchJudges(p: Filter, t: Option<Filter>, e: Option<Filter>, row: Row)
    requires Kept(p, row) == row || Kept(p, row) == []
    ensures Kept(Condition(Some(p), t, e), row)
         == if Kept(p, row) == [] then (if e.Some? then Kept(e.value, row) else [])
            else if t.Some? then Kept(t.value, row) else row
  {
    var m := Mask(p, row);
    var f := Condition(Some(p), t, e);
    SelectAll(row, m);
    SelectLength(row, m, true);
    SelectLength(row, m, false);
    if Kept(p, row) == [] {
      WeaveOne(m, false, BranchMask(e, false, row));
      ConditionUnfolds(f, Some(p), t, e, row, m);
      assert BranchMask(t, true, Select(row, m, true)) == [];
      assert Mask(f, row) == BranchMask(e, false, row);
      SelectAll(row, Const(false, |row|));
    } else {
      WeaveOne(m, true, BranchMask(t, true, row));
      ConditionUnfolds(f, Some(p), t, e, row, m);
      assert BranchMask(e, false, Select(row, m, false)) == [];
      assert Mask(f, row) == BranchMask(t, true, row);
      SelectAll(row, Const(true, |row|));
    }
  }

  /** The predicate's own cells come through if the true filter passes and the false one blocks. */
  lemma PassOrBlock(p: Filter, row: Row)
    ensures Kept(Condition(Some(p), Some(PassAll), Some(BlockAll)), row) == Kept(p, row)
  {
    var m := Mask(p, row);
    var f := Condition(Some(p), Some(PassAll), Some(BlockAll));
    ConditionUnfolds(f, Some(p), Some(PassAll), Some(BlockAll), row, m);
    assert Mask(PassAll, Select(row, m, true)) == Const(true, Count(m, true));
    assert Mask(BlockAll, Select(row, m, false)) == Const(false, Count(m, false));
    WeaveVerdicts(m);
  }

  /** On a row, conditions with both branches are the documented ones, whatever the branches, exactly if
      the predicate keeps the whole row or nothing of it. */
  lemma ConditionIsDocumentedIff(p: Filter, row: Row)
    ensures (forall t, e :: Kept(Condition(Some(p), Some(t), Some(e)), row) == Documented(p, Some(t), Some(e), row))
        <==> Kept(p, row) == row || Kept(p, row) == []
  {
    hide Kept;
    if Kept(p, row) == row || Kept(p, row) == [] {
      forall t, e ensures Kept(Condition(Some(p), Some(t), Some(e)), row) == Documented(p, Some(t), Some(e), row) {
        OneBranchJudges(p, Some(t), Some(e), row);
      }
    } else {
      PassOrBlock(p, row);
      AllOrNothing(row, []);
      assert Documented(p, Some(PassAll), Some(BlockAll), row) == row;
    }
  }

  /** A missing true filter outputs the whole row where the documentation says nothing. */
  lemma MissingBranchPasses(p: Filter, e: Option<Filter>, row: Row)
    requires Kept(p, row) == row != []
    ensures Kept(Condition(Some(p), None, e), row) == row && Documented(p, None, e, row) == []
  {
    hide Kept;
    OneBranchJudges(p, None, e, row);
  }

  /* ---- Interleaves ---- */

  /** As documented: every filter processes a copy of the row, and the results are pooled. */
  function Pool(fs: seq<Filter>, row: Row): multiset<CellInfo>
    decreases |fs|
  {
    if fs == [] then multiset{} else multiset(Kept(fs[0], row)) + Pool(fs[1..], row)
  }

  ghost function Both(p: Judge, q: Judge): Judge { c => p(c) && q(c) }
  ghost function OneOfThem(p: Judge, q: Judge): Judge { c => p(c) || q(c) }

  lemma {:induction false} TwoPools(row: Row, p: Judge, q: Judge)
    ensures multiset(Where(row, p)) + multiset(Where(row, q))
         == multiset(Where(row, OneOfThem(p, q))) + multiset(Where(row, Both(p, q)))
    decreases |row|
  {
    if row != [] {
      TwoPools(row[1..], p, q);
      WhereFirst(row, p);
      WhereFirst(row, q);
      WhereFirst(row, OneOfThem(p, q));
      WhereFirst(row, Both(p, q));
      hide Where;
      AddUp(If(p(row[0]), row[0]), If(q(row[0]), row[0]),
            If(OneOfThem(p, q)(row[0]), row[0]), If(Both(p, q)(row[0]), row[0]),
            multiset(Where(row[1..], p)), multiset(Where(row[1..], q)),
            multiset(Where(row[1..], OneOfThem(p, q))), multiset(Where(row[1..], Both(p, q))));
    }
  }

  ghost function If(b: bool, c: CellInfo): multiset<CellInfo> { if b then multiset{c} else multiset{} }

  lemma AddUp<T>(a: multiset<T>, b: multiset<T>, c: multiset<T>, d: multiset<T>,
                 a': multiset<T>, b': multiset<T>, c': multiset<T>, d': multiset<T>)
    requires a + b == c + d && a' + b' == c' + d'
    ensures (a + a') + (b + b') == (c + c') + (d + d')
  {
    assert (a + a') + (b + b') == (a + b) + (a' + b');
    assert (c + c') + (d + d') == (c + d) + (c' + d');
  }

  lemma WhereFirst(row: Row, p: Judge)
    requires row != []
    ensures multiset(Where(row, p)) == If(p(row[0]), row[0]) + multiset(Where(row[1..], p))
  {
  }

  lemma {:induction false} WhereNothing(row: Row, p: Judge)
    ensures Where(row, p) == [] <==> forall c :: c in row ==> !p(c)
    decreases |row|
  {
    if row != [] {
      WhereNothing(row[1..], p);
      assert forall c :: c in row <==> c == row[0] || c in row[1..];
    }
  }

  lemma {:induction false} SameWhere(row: Row, p: Judge, q: Judge)
    requires forall c :: p(c) == q(c)
    ensures Where(row, p) == Where(row, q)
    decreases |row|
  {
    if row != [] { SameWhere(row[1..], p, q); }
  }

  /** What the pool holds beyond one copy of each cell. */
  ghost function Extra(fs: seq<Filter>, row: Row): multiset<CellInfo>
    decreases |fs|
  {
    if fs == [] then multiset{}
    else multiset(Where(row, Both(JudgeOf(fs[0]), AnyOf(fs[1..])))) + Extra(fs[1..], row)
  }

  lemma {:induction false} PoolIs(fs: seq<Filter>, row: Row)
    requires (forall g :: g in fs ==> Stateless(g)) && OneEach(row)
    ensures Pool(fs, row) == multiset(Where(row, AnyOf(fs))) + Extra(fs, row)
    decreases |fs|
  {
    if fs == [] {
      WhereNothing(row, AnyOf(fs));
    } else {
      StatelessKeeps(fs[0], row);
      PoolIs(fs[1..], row);
      FirstPool(fs, row);
    }
  }

  lemma FirstPool(fs: seq<Filter>, row: Row)
    requires fs != [] && Kept(fs[0], row) == Where(row, JudgeOf(fs[0]))
    requires Pool(fs[1..], row) == multiset(Where(row, AnyOf(fs[1..]))) + Extra(fs[1..], row)
    ensures Pool(fs, row) == multiset(Where(row, AnyOf(fs))) + Extra(fs, row)
  {
    hide Where, JudgeOf, AnyOf, Kept, OneOfThem, Both;
    var p, q := JudgeOf(fs[0]), AnyOf(fs[1..]);
    TwoPools(row, p, q);
    EitherIsAny(fs, row);
    assert multiset(Where(row, p)) + (multiset(Where(row, q)) + Extra(fs[1..], row))
      == (multiset(Where(row, p)) + multiset(Where(row, q))) + Extra(fs[1..], row);
  }

  lemma EitherIsAny(fs: seq<Filter>, row: Row)
    requires fs != []
    ensures Where(row, OneOfThem(JudgeOf(fs[0]), AnyOf(fs[1..]))) == Where(row, AnyOf(fs))
  {
    hide Where, JudgeOf, AnyOf;
    FirstOrRest(fs);
    SameWhere(row, OneOfThem(JudgeOf(fs[0]), AnyOf(fs[1..])), AnyOf(fs));
  }

  /** No cell of the row passes two of the filters. */
  ghost predicate Exclusive(fs: seq<Filter>, row: Row) {
    forall i, j, c :: 0 <= i < j < |fs| && c in row ==> !(Passes(fs[i], c) && Passes(fs[j], c))
  }

  lemma {:induction false} ExtraIff(fs: seq<Filter>, row: Row)
    ensures Extra(fs, row) == multiset{} <==> Exclusive(fs, row)
    decreases |fs|
  {
    if fs != [] {
      hide Where, Extra, Passes;
      var p := Both(JudgeOf(fs[0]), AnyOf(fs[1..]));
      ExtraUnfolds(fs, row);
      ExtraIff(fs[1..], row);
      WhereNothing(row, p);
      ExclusiveFirst(fs, row);
    }
  }

  lemma ExtraUnfolds(fs: seq<Filter>, row: Row)
    requires fs != []
    ensures Extra(fs, row) == multiset{} <==>
      Where(row, Both(JudgeOf(fs[0]), AnyOf(fs[1..]))) == [] && Extra(fs[1..], row) == multiset{}
  {
    var w := Where(row, Both(JudgeOf(fs[0]), AnyOf(fs[1..])));
    if w != [] { assert w[0] in Extra(fs, row); }
  }

  lemma ExclusiveFirst(fs: seq<Filter>, row: Row)
    requires fs != []
    ensures Exclusive(fs, row) <==>
      Exclusive(fs[1..], row) && forall c :: c in row ==> !Both(JudgeOf(fs[0]), AnyOf(fs[1..]))(c)
  {
    hide Passes;
    assert forall j :: 0 < j < |fs| ==> fs[1..][j - 1] == fs[j];
    assert forall j :: 0 <= j < |fs| - 1 ==> fs[1..][j] == fs[j + 1];
    forall c | c in row
      ensures Both(JudgeOf(fs[0]), AnyOf(fs[1..]))(c) <==> Passes(fs[0], c) && exists j :: 0 < j < |fs| && Passes(fs[j], c)
    {
      if g :| g in fs[1..] && Passes(g, c) {
        var j :| 0 <= j < |fs[1..]| && fs[1..][j] == g;
        assert fs[j + 1] == g;
      }
      assert forall j :: 0 < j < |fs| ==> fs[j] in fs[1..];
    }
  }

  /** In a stored row, an interleave of filters without counters outputs the documented pool exactly if
      no cell passes two of them; one that does is output once. */
  lemma InterleaveIsDocumentedIff(fs: seq<Filter>, row: Row)
    requires Stateless(Interleave(fs)) && OneEach(row)
    ensures multiset(Kept(Interleave(fs), row)) == Pool(fs, row) <==> Exclusive(fs, row)
  {
    PoolIs(fs, row);
    ExtraIff(fs, row);
    StatelessKeeps(Interleave(fs), row);
    hide Where, Pool, Kept, Stateless, OneEach, Exclusive;
    SameWhere(row, JudgeOf(Interleave(fs)), AnyOf(fs));
  }
}
