/** The numbers of the WAL objects, as listWALs returns them (pkg/walcloud/manager.go). */
module Listing {

  predicate IsLast(m: nat, keys: set<nat>) { m in keys && forall k :: k in keys ==> k <= m }

  lemma {:induction false} LastExists(keys: set<nat>)
    requires keys != {}
    ensures exists m :: IsLast(m, keys)
    decreases |keys|
  {
    var k :| k in keys;
    var rest := keys - {k};
    if rest == {} {
      assert keys == {k};
      assert IsLast(k, keys);
    } else {
      LastExists(rest);
      var m :| IsLast(m, rest);
      assert keys == rest + {k};
      assert IsLast(if k > m then k else m, keys);
    }
  }

  /** The last number, or 0. */
  function Last(keys: set<nat>): (m: nat)
    ensures forall k :: k in keys ==> k <= m
    ensures if keys == {} then m == 0 else m in keys
  {
    if keys == {} then 0
    else
      LastExists(keys);
      var m: nat :| IsLast(m, keys);
      m
  }

  lemma LastIs(m: nat, keys: set<nat>)
    requires IsLast(m, keys)
    ensures Last(keys) == m
  {
  }

  /** NewManager's first sequence number. */
  function NextSeqAfter(keys: set<nat>): nat { if keys == {} then 1 else Last(keys) + 1 }

  /** NewManager continues above MaxWALSeq exactly when the log still reaches it. */
  lemma RestartsAboveIff(keys: set<nat>, max: nat)
    ensures NextSeqAfter(keys) > max <==> max == 0 || exists n :: n in keys && n >= max
  {
  }

  predicate Ascending(s: seq<nat>) { forall i, j :: 0 <= i < j < |s| ==> s[i] < s[j] }

  /** The numbers in ascending order. */
  function Listed(keys: set<nat>): (s: seq<nat>)
    ensures Ascending(s)
    ensures forall k :: k in s <==> k in keys
    decreases |keys|
  {
    if keys == {} then []
    else
      var m := Last(keys);
      var rest := Listed(keys - {m});
      assert forall i :: 0 <= i < |rest| ==> rest[i] in keys - {m};
      rest + [m]
  }

  /** How far the first i entries of a listing reach. */
  function Reach(entries: seq<nat>, i: nat): nat
    requires i <= |entries|
  {
    if i == 0 then 0 else entries[i - 1] + 1
  }

  /** Between what the first i entries reach and entry i there is no other number. */
  lemma ListedNext(keys: set<nat>, i: nat)
    requires i < |Listed(keys)|
    ensures var entries := Listed(keys);
      entries[i] in keys && Reach(entries, i) <= entries[i] && forall k :: k in keys && Reach(entries, i) <= k ==> entries[i] <= k
  {
    var entries := Listed(keys);
    assert entries[i] in entries;
    forall k | k in keys && Reach(entries, i) <= k ensures entries[i] <= k {
      var j :| 0 <= j < |entries| && entries[j] == k;
    }
  }

  lemma ReachesEnd(keys: set<nat>)
    ensures var entries := Listed(keys); Reach(entries, |entries|) == if keys == {} then 0 else Last(keys) + 1
  {
    var entries := Listed(keys);
    if keys != {} {
      assert Last(keys) in entries;
      assert entries[|entries| - 1] in entries;
    }
  }

  function Max(a: nat, b: nat): nat { if a >= b then a else b }
}
