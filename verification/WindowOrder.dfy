/** The order in which batches take effect (pkg/engine/engine.go).  Writers of one window apply their
    batches in any order once they are notified; replay applies them in log order. */
module WindowOrder {
  import opened Bytes
  import opened Pebble

  /** What operations leave under a key. */
  datatype Effect = Untouched | Removed | Written(value: bytes)

  function EffectOf(op: Op, k: bytes): Effect {
    match op
    case Set(key, value) => if key == k then Written(value) else Untouched
    case Delete(key) => if key == k then Removed else Untouched
    case DeleteRange(lower, upper) => if InRange(k, lower, upper) then Removed else Untouched
  }

  function Later(before: Effect, after: Effect): Effect { if after.Untouched? then before else after }

  function BatchEffect(ops: seq<Op>, k: bytes): Effect
    decreases |ops|
  {
    if ops == [] then Untouched else Later(BatchEffect(ops[..|ops| - 1], k), EffectOf(ops[|ops| - 1], k))
  }

  function EffectOfAll(batches: seq<seq<Op>>, k: bytes): Effect
    decreases |batches|
  {
    if batches == [] then Untouched
    else Later(EffectOfAll(batches[..|batches| - 1], k), BatchEffect(batches[|batches| - 1], k))
  }

  function ApplyBatches(db: DB, batches: seq<seq<Op>>): DB
    decreases |batches|
  {
    if batches == [] then db else ApplyOps(ApplyBatches(db, batches[..|batches| - 1]), batches[|batches| - 1])
  }

  /** The entry under a key afterwards. */
  predicate Shows(before: DB, e: Effect, after: DB, k: bytes) {
    match e
    case Untouched => (k in after <==> k in before) && (k in before ==> after[k] == before[k])
    case Removed => k !in after
    case Written(v) => k in after && after[k] == v
  }

  lemma {:induction false} BatchShows(db: DB, ops: seq<Op>, k: bytes)
    ensures Shows(db, BatchEffect(ops, k), ApplyOps(db, ops), k)
    decreases |ops|
  {
    hide InRange;
    if ops != [] { BatchShows(db, ops[..|ops| - 1], k); }
  }

  lemma {:induction false} BatchesShow(db: DB, batches: seq<seq<Op>>, k: bytes)
    ensures Shows(db, EffectOfAll(batches, k), ApplyBatches(db, batches), k)
    decreases |batches|
  {
    hide BatchEffect, ApplyOps;
    if batches != [] {
      var n := |batches| - 1;
      BatchesShow(db, batches[..n], k);
      BatchShows(ApplyBatches(db, batches[..n]), batches[n], k);
    }
  }

  ghost predicate SameResult(a: seq<seq<Op>>, b: seq<seq<Op>>) { forall db :: ApplyBatches(db, a) == ApplyBatches(db, b) }

  /** Two orders give the same database, whatever it was, exactly when they agree on what happens last
      to each key. */
  lemma SameResultIff(a: seq<seq<Op>>, b: seq<seq<Op>>)
    ensures SameResult(a, b) <==> forall k :: EffectOfAll(a, k) == EffectOfAll(b, k)
  {
    hide EffectOfAll, ApplyBatches;
    if forall k :: EffectOfAll(a, k) == EffectOfAll(b, k) {
      forall db ensures ApplyBatches(db, a) == ApplyBatches(db, b) {
        forall k ensures SameEntry(ApplyBatches(db, a), ApplyBatches(db, b), k) {
          BatchesShow(db, a, k);
          BatchesShow(db, b, k);
        }
        SameEntries(ApplyBatches(db, a), ApplyBatches(db, b));
      }
    } else {
      var k :| EffectOfAll(a, k) != EffectOfAll(b, k);
      var db: DB := if EffectOfAll(a, k).Written? || EffectOfAll(b, k).Written? then map[] else map[k := []];
      BatchesShow(db, a, k);
      BatchesShow(db, b, k);
      assert ApplyBatches(db, a) != ApplyBatches(db, b);
    }
  }

  predicate SameEntry(a: DB, b: DB, k: bytes) { (k in a <==> k in b) && (k in a ==> a[k] == b[k]) }

  lemma SameEntries(a: DB, b: DB)
    requires forall k :: SameEntry(a, b, k)
    ensures a == b
  {
    forall k ensures k in a <==> k in b { assert SameEntry(a, b, k); }
    forall k | k in a ensures a[k] == b[k] { assert SameEntry(a, b, k); }
  }

  /* ---- Conflicts ---- */

  /** An order: every batch of the log once. */
  ghost predicate IsOrder(order: seq<nat>, n: nat) {
    && (forall i :: 0 <= i < |order| ==> order[i] < n)
    && (forall i, j :: 0 <= i < j < |order| ==> order[i] != order[j])
    && (forall b: nat :: b < n ==> b in order)
  }

  function InOrder(batches: seq<seq<Op>>, order: seq<nat>): (r: seq<seq<Op>>)
    requires forall i :: 0 <= i < |order| ==> order[i] < |batches|
    ensures |r| == |order| && forall i :: 0 <= i < |order| ==> r[i] == batches[order[i]]
  {
    seq(|order|, i requires 0 <= i < |order| => batches[order[i]])
  }

  ghost predicate Touches(ops: seq<Op>, k: bytes) { !BatchEffect(ops, k).Untouched? }

  /** Batches that touch a common key take effect as in the log. */
  ghost predicate ConflictsInLogOrder(batches: seq<seq<Op>>, order: seq<nat>)
    requires forall i :: 0 <= i < |order| ==> order[i] < |batches|
  {
    forall i, j, k :: 0 <= i < j < |order| && Touches(batches[order[i]], k) && Touches(batches[order[j]], k) ==> order[i] < order[j]
  }

  /** The last batch that touches a key decides. */
  lemma {:induction false} LastDecides(batches: seq<seq<Op>>, k: bytes, i: nat)
    requires i < |batches| && Touches(batches[i], k) && forall j :: i < j < |batches| ==> !Touches(batches[j], k)
    ensures EffectOfAll(batches, k) == BatchEffect(batches[i], k)
    decreases |batches|
  {
    hide BatchEffect;
    if i < |batches| - 1 { LastDecides(batches[..|batches| - 1], k, i); }
  }

  lemma {:induction false} NoneDecides(batches: seq<seq<Op>>, k: bytes)
    requires forall j :: 0 <= j < |batches| ==> !Touches(batches[j], k)
    ensures EffectOfAll(batches, k) == Untouched
    decreases |batches|
  {
    hide BatchEffect;
    if batches != [] { NoneDecides(batches[..|batches| - 1], k); }
  }

  lemma {:induction false} LastTouch(batches: seq<seq<Op>>, k: bytes, n: nat) returns (i: int)
    requires n <= |batches|
    ensures -1 <= i < n && (i >= 0 ==> Touches(batches[i], k)) && forall j :: i < j < n ==> !Touches(batches[j], k)
  {
    hide BatchEffect;
    i := n - 1;
    if n > 0 && !Touches(batches[n - 1], k) { i := LastTouch(batches, k, n - 1); }
  }

  /** If conflicting batches were applied in log order, the live database is what replay makes of the
      log from the same start. */
  lemma LogOrderIsEnough(batches: seq<seq<Op>>, order: seq<nat>)
    requires IsOrder(order, |batches|) && ConflictsInLogOrder(batches, order)
    ensures SameResult(InOrder(batches, order), batches)
  {
    hide BatchEffect, EffectOfAll, SameResult;
    var applied := InOrder(batches, order);
    forall k ensures EffectOfAll(applied, k) == EffectOfAll(batches, k) {
      var i := LastTouch(applied, k, |applied|);
      if i < 0 {
        forall b: nat | b < |batches| ensures !Touches(batches[b], k) {
          assert b in order;
          var j :| 0 <= j < |order| && order[j] == b;
          assert applied[j] == batches[b];
        }
        NoneDecides(applied, k);
        NoneDecides(batches, k);
      } else {
        var b := order[i];
        forall c: nat | b < c < |batches| ensures !Touches(batches[c], k) {
          assert c in order;
          var j :| 0 <= j < |order| && order[j] == c;
          assert applied[j] == batches[c] && applied[i] == batches[b];
        }
        LastDecides(applied, k, i);
        LastDecides(batches, k, b);
      }
    }
    SameResultIff(applied, batches);
  }

  ghost predicate LastOn(batches: seq<seq<Op>>, k: bytes, i: int) {
    0 <= i < |batches| && Touches(batches[i], k) && forall j :: i < j < |batches| ==> !Touches(batches[j], k)
  }

  /** The last batch to touch a key is the last one in the log that does. */
  ghost predicate SameLast(batches: seq<seq<Op>>, order: seq<nat>)
    requires IsOrder(order, |batches|)
  {
    forall k, i, j :: LastOn(InOrder(batches, order), k, i) && LastOn(batches, k, j) ==> order[i] == j
  }

  /** The same keys, whatever happens to them. */
  ghost predicate SameTouches(a: seq<seq<Op>>, b: seq<seq<Op>>) {
    |a| == |b| && forall i, k :: 0 <= i < |a| ==> (Touches(a[i], k) <==> Touches(b[i], k))
  }

  /** For batches that touch given keys, an order gives what replay gives, whatever the batches do to
      the keys, exactly when it ends on each key with the batch that the log ends with. */
  lemma SameLastIff(batches: seq<seq<Op>>, order: seq<nat>)
    requires IsOrder(order, |batches|)
    ensures (forall other :: SameTouches(batches, other) ==> SameResult(InOrder(other, order), other)) <==> SameLast(batches, order)
  {
    hide Touches, SameResult;
    if SameLast(batches, order) {
      forall other | SameTouches(batches, other) ensures SameResult(InOrder(other, order), other) {
        LastsAgree(batches, other, order);
      }
    } else {
      var k, i, j :| LastOn(InOrder(batches, order), k, i) && LastOn(batches, k, j) && order[i] != j;
      var other := Tagged(batches, k, j);
      TaggedTouches(batches, k, j);
      TaggedDiffer(batches, order, k, i, j);
    }
  }

  lemma LastsAgree(batches: seq<seq<Op>>, other: seq<seq<Op>>, order: seq<nat>)
    requires IsOrder(order, |batches|) && SameLast(batches, order) && SameTouches(batches, other)
    ensures SameResult(InOrder(other, order), other)
  {
    hide BatchEffect, EffectOfAll, SameResult, Touches;
    var applied := InOrder(other, order);
    forall k ensures EffectOfAll(applied, k) == EffectOfAll(other, k) {
      var i := LastTouch(applied, k, |applied|);
      var j := LastTouch(other, k, |other|);
      if i >= 0 {
        assert applied[i] == other[order[i]];
        assert j >= order[i];
        assert LastOn(batches, k, j) && LastOn(InOrder(batches, order), k, i);
        LastDecides(applied, k, i);
        LastDecides(other, k, j);
      } else {
        forall b: nat | b < |other| ensures !Touches(other[b], k) {
          assert b in order;
          var x :| 0 <= x < |order| && order[x] == b;
          assert applied[x] == other[b];
        }
        NoneDecides(applied, k);
        NoneDecides(other, k);
      }
    }
    SameResultIff(applied, other);
  }

  function Tag(i: int, j: int): bytes { if i == j then [1] else [2] }

  /** The batches that touch k end by writing it, batch j another value than the others. */
  ghost function Tagged(batches: seq<seq<Op>>, k: bytes, j: int): (r: seq<seq<Op>>)
    ensures |r| == |batches|
  {
    seq(|batches|, i requires 0 <= i < |batches| =>
      if Touches(batches[i], k) then batches[i] + [Set(k, Tag(i, j))] else batches[i])
  }

  lemma SetLast(ops: seq<Op>, k: bytes, v: bytes)
    ensures BatchEffect(ops + [Set(k, v)], k) == Written(v)
    ensures forall x :: x != k ==> BatchEffect(ops + [Set(k, v)], x) == BatchEffect(ops, x)
  {
    assert (ops + [Set(k, v)])[..|ops|] == ops;
  }

  lemma TaggedTouches(batches: seq<seq<Op>>, k: bytes, j: int)
    ensures SameTouches(batches, Tagged(batches, k, j))
  {
    hide BatchEffect;
    forall i, x | 0 <= i < |batches| ensures Touches(batches[i], x) <==> Touches(Tagged(batches, k, j)[i], x) {
      SetLast(batches[i], k, Tag(i, j));
    }
  }

  lemma TaggedDiffer(batches: seq<seq<Op>>, order: seq<nat>, k: bytes, i: int, j: int)
    requires IsOrder(order, |batches|) && LastOn(InOrder(batches, order), k, i) && LastOn(batches, k, j) && order[i] != j
    ensures !SameResult(InOrder(Tagged(batches, k, j), order), Tagged(batches, k, j))
  {
    hide BatchEffect, EffectOfAll, SameResult;
    var other := Tagged(batches, k, j);
    var applied := InOrder(other, order);
    TaggedTouches(batches, k, j);
    SetLast(batches[order[i]], k, Tag(order[i], j));
    SetLast(batches[j], k, Tag(j, j));
    assert forall x :: 0 <= x < |order| ==> applied[x] == other[order[x]] && InOrder(batches, order)[x] == batches[order[x]];
    LastDecides(applied, k, i);
    LastDecides(other, k, j);
    SameResultIff(applied, other);
  }

  /** Two writes of one window to the same key: applied against the log order, the live database and
      the recovered one differ. */
  lemma SwappedWritesDiffer(k: bytes, v: bytes, w: bytes)
    requires v != w
    ensures !SameResult([[Set(k, w)], [Set(k, v)]], [[Set(k, v)], [Set(k, w)]])
  {
    var a, b: seq<seq<Op>> := [[Set(k, w)], [Set(k, v)]], [[Set(k, v)], [Set(k, w)]];
    assert BatchEffect([Set(k, v)], k) == Written(v) && BatchEffect([Set(k, w)], k) == Written(w);
    LastDecides(a, k, 1);
    LastDecides(b, k, 1);
    SameResultIff(a, b);
  }
}
