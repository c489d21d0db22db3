/** Pebble as this system uses it: an ordered byte-string map with atomic batches. */
module Pebble {
  import opened Bytes

  type DB = map<bytes, bytes>

  datatype Op = Set(key: bytes, value: bytes) | Delete(key: bytes) | DeleteRange(lower: bytes, upper: bytes)

  /** Operations of a batch take effect in order; a range deletion removes [lower, upper). */
  function ApplyOp(db: DB, op: Op): DB {
    match op
    case Set(k, v) => db[k := v]
    case Delete(k) => db - {k}
    case DeleteRange(lo, hi) => map k | k in db && !InRange(k, lo, hi) :: db[k]
  }

  function ApplyOps(db: DB, ops: seq<Op>): DB
    decreases |ops|
  {
    if ops == [] then db else ApplyOp(ApplyOps(db, ops[..|ops| - 1]), ops[|ops| - 1])
  }

  lemma {:induction false} ApplyOpsConcat(db: DB, a: seq<Op>, b: seq<Op>)
    ensures ApplyOps(db, a + b) == ApplyOps(ApplyOps(db, a), b)
    decreases |b|
  {
    if b == [] {
      assert a + b == a;
    } else {
      assert (a + b)[..|a + b| - 1] == a + b[..|b| - 1];
      ApplyOpsConcat(db, a, b[..|b| - 1]);
    }
  }

  lemma ApplyOpsSnoc(db: DB, ops: seq<Op>, op: Op)
    ensures ApplyOps(db, ops + [op]) == ApplyOp(ApplyOps(db, ops), op)
  {
    assert (ops + [op])[..|ops|] == ops;
  }

  /* ---- Iterators ---- */

  predicate IsLeast(k: bytes, keys: set<bytes>) { k in keys && forall x :: x in keys ==> !Less(x, k) }

  lemma {:induction false} LeastExists(keys: set<bytes>)
    requires keys != {}
    ensures exists k :: IsLeast(k, keys)
    decreases |keys|
  {
    var k :| k in keys;
    var rest := keys - {k};
    LessIrreflexive(k);
    if rest == {} {
      assert keys == {k};
      assert IsLeast(k, keys);
    } else {
      LeastExists(rest);
      var m :| IsLeast(m, rest);
      if Less(k, m) {
        forall x | x in rest ensures !Less(x, k) { if Less(x, k) { LessTransitive(x, k, m); } }
        assert IsLeast(k, keys);
      } else {
        assert IsLeast(m, keys);
      }
    }
  }

  function Least(keys: set<bytes>): (k: bytes)
    requires keys != {}
    ensures IsLeast(k, keys)
  {
    LeastExists(keys);
    assert forall a, b :: IsLeast(a, keys) && IsLeast(b, keys) ==> a == b by {
      forall a, b | IsLeast(a, keys) && IsLeast(b, keys) ensures a == b { LessTotal(a, b); }
    }
    var k :| IsLeast(k, keys);
    k
  }

  predicate Ascending(ks: seq<bytes>) { forall i, j :: 0 <= i < j < |ks| ==> Less(ks[i], ks[j]) }

  /** The keys an iterator visits, in order. */
  function Sorted(keys: set<bytes>): (ks: seq<bytes>)
    ensures forall k :: k in ks <==> k in keys
    ensures Ascending(ks)
    decreases |keys|
  {
    if keys == {} then []
    else
      var m := Least(keys);
      var rest := Sorted(keys - {m});
      assert forall i :: 0 <= i < |rest| ==> rest[i] in keys - {m};
      assert forall x :: x in keys - {m} ==> Less(m, x) by {
        forall x | x in keys - {m} ensures Less(m, x) { LessTotal(m, x); }
      }
      [m] + rest
  }

  /** Iterator bounds; a nil bound is no bound. */
  datatype KeyRange = KeyRange(lower: Option<bytes>, upper: Option<bytes>)

  predicate Within(k: bytes, r: KeyRange) {
    && (r.lower.Some? ==> !Less(k, r.lower.value))
    && (r.upper.Some? ==> Less(k, r.upper.value))
  }

  function Iterate(db: DB, r: KeyRange): (ks: seq<bytes>)
    ensures forall k :: k in ks <==> k in db && Within(k, r)
    ensures Ascending(ks)
  {
    Sorted(set k | k in db && Within(k, r))
  }

  class Batch {
    var ops: seq<Op>

    constructor ()
      ensures ops == []
    {
      ops := [];
    }

    method Append(op: Op)
      modifies this
      ensures ops == old(ops) + [op]
    {
      ops := ops + [op];
    }
  }
}
