/** Byte strings, the lexicographic order that Pebble's default comparer uses,
    and big-endian integers. */
module Bytes {

  type byte = b: int | 0 <= b < 256
  type bytes = seq<byte>

  datatype Option<+T> = None | Some(value: T)

  /** bytes.Compare(a, b) < 0 */
  predicate Less(a: bytes, b: bytes)
    decreases |a|
  {
    b != [] && (a == [] || a[0] < b[0] || (a[0] == b[0] && Less(a[1..], b[1..])))
  }

  /** Membership in the half-open key range [lo, hi). */
  predicate InRange(k: bytes, lo: bytes, hi: bytes) {
    !Less(k, lo) && Less(k, hi)
  }

  /* ---- Order facts ---- */

  lemma LessIrreflexive(a: bytes)
    ensures !Less(a, a)
    decreases |a|
  {
    if a != [] { LessIrreflexive(a[1..]); }
  }

  lemma LessTotal(a: bytes, b: bytes)
    ensures a == b || Less(a, b) || Less(b, a)
    decreases |a|
  {
    if a != [] && b != [] && a[0] == b[0] {
      LessTotal(a[1..], b[1..]);
      assert a == [a[0]] + a[1..] && b == [b[0]] + b[1..];
    }
  }

  lemma LessTransitive(a: bytes, b: bytes, c: bytes)
    requires Less(a, b) && Less(b, c)
    ensures Less(a, c)
    decreases |a|
  {
    if a != [] && a[0] == b[0] == c[0] { LessTransitive(a[1..], b[1..], c[1..]); }
  }

  lemma LessAsymmetric(a: bytes, b: bytes)
    requires Less(a, b)
    ensures !Less(b, a) && a != b
  {
    LessIrreflexive(a);
    if Less(b, a) { LessTransitive(a, b, a); }
  }

  /** A common prefix does not influence the order. */
  lemma {:induction false} LessCommonPrefix(p: bytes, a: bytes, b: bytes)
    ensures Less(p + a, p + b) <==> Less(a, b)
    decreases |p|
  {
    if p == [] {
      assert p + a == a && p + b == b;
    } else {
      LessCommonPrefix(p[1..], a, b);
      assert (p + a)[1..] == p[1..] + a && (p + b)[1..] == p[1..] + b;
    }
  }

  /** Two different strings of one length decide the order of all their extensions. */
  lemma {:induction false} LessFixedWidth(a: bytes, x: bytes, b: bytes, y: bytes)
    requires |a| == |b| && a != b
    ensures Less(a + x, b + y) <==> Less(a, b)
    decreases |a|
  {
    assert a == [a[0]] + a[1..] && b == [b[0]] + b[1..];
    assert (a + x)[1..] == a[1..] + x && (b + y)[1..] == b[1..] + y;
    if a[0] == b[0] { LessFixedWidth(a[1..], x, b[1..], y); }
  }

  /** A key range between two extensions of p holds exactly the extensions of p whose tail lies
      between the two tails. */
  lemma {:induction false} RangeUnderPrefix(k: bytes, p: bytes, lo: bytes, hi: bytes)
    ensures InRange(k, p + lo, p + hi) <==> p <= k && InRange(k[|p|..], lo, hi)
    decreases |p|
  {
    if p == [] {
      assert p + lo == lo && p + hi == hi;
    } else {
      assert (p + lo)[1..] == p[1..] + lo && (p + hi)[1..] == p[1..] + hi;
      if k != [] && k[0] == p[0] {
        RangeUnderPrefix(k[1..], p[1..], lo, hi);
        assert p <= k <==> p[1..] <= k[1..] by {
          assert p == [p[0]] + p[1..] && k == [k[0]] + k[1..];
        }
        if p <= k { assert k[1..][|p[1..]|..] == k[|p|..]; }
      }
    }
  }

  /* ---- Big-endian integers ---- */

  function Pow256(w: nat): (r: nat)
    ensures r > 0
  {
    if w == 0 then 1 else 256 * Pow256(w - 1)
  }

  /** binary.BigEndian.PutUintN: the w low-order bytes of n, most significant first. */
  function BigEndian(n: nat, w: nat): (s: bytes)
    ensures |s| == w
    decreases w
  {
    if w == 0 then [] else BigEndian(n / 256, w - 1) + [n % 256]
  }

  /** binary.BigEndian.UintN */
  function FromBigEndian(s: bytes): nat
    decreases |s|
  {
    if s == [] then 0 else FromBigEndian(s[..|s| - 1]) * 256 + s[|s| - 1]
  }

  lemma {:induction false} BigEndianRoundTrip(n: nat, w: nat)
    requires n < Pow256(w)
    ensures FromBigEndian(BigEndian(n, w)) == n
    decreases w
  {
    if w > 0 {
      BigEndianRoundTrip(n / 256, w - 1);
      assert BigEndian(n, w)[..w - 1] == BigEndian(n / 256, w - 1);
    }
  }

  lemma {:induction false} FromBigEndianRoundTrip(s: bytes)
    ensures FromBigEndian(s) < Pow256(|s|)
    ensures BigEndian(FromBigEndian(s), |s|) == s
    decreases |s|
  {
    if s != [] {
      var t := s[..|s| - 1];
      FromBigEndianRoundTrip(t);
      assert s == t + [s[|s| - 1]];
    }
  }

  /** Byte order of fixed-width big-endian integers is numeric order. */
  lemma {:induction false} BigEndianOrder(m: nat, n: nat, w: nat)
    requires m < Pow256(w) && n < Pow256(w)
    ensures Less(BigEndian(m, w), BigEndian(n, w)) <==> m < n
    ensures BigEndian(m, w) == BigEndian(n, w) <==> m == n
    decreases w
  {
    BigEndianRoundTrip(m, w);
    BigEndianRoundTrip(n, w);
    if w > 0 {
      var a, b := BigEndian(m / 256, w - 1), BigEndian(n / 256, w - 1);
      BigEndianOrder(m / 256, n / 256, w - 1);
      if a == b {
        LessCommonPrefix(a, [m % 256], [n % 256]);
      } else {
        LessFixedWidth(a, [m % 256], b, [n % 256]);
      }
    }
  }
}
