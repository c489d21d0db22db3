/** The WAL manager's data (pkg/walcloud/manager.go): merging batch segments, and the critical
    sections that open, fill and cut a batch window. */
module Wal {
  import opened Bytes
  import opened Listing

  const HEADER: nat := 12
  const TWO_32: nat := 0x1_0000_0000

  /* ---- Batch representations ---- */

  /** Little-endian uint32. */
  function FromLittleEndian(s: bytes): (n: nat)
    requires |s| == 4
    ensures n < TWO_32
  {
    var a: int, b: int, c: int, d: int := s[0], s[1], s[2], s[3];
    a + 256 * b + 65536 * c + 16777216 * d
  }

  function LittleEndian(n: nat): (s: bytes)
    requires n < TWO_32
    ensures |s| == 4
  {
    [n % 256, n / 256 % 256, n / 256 / 256 % 256, n / 256 / 256 / 256]
  }

  lemma LittleEndianRoundTrip(n: nat)
    requires n < TWO_32
    ensures FromLittleEndian(LittleEndian(n)) == n
  {
    var a := n / 256;
    var b := a / 256;
    assert n == 256 * a + n % 256 && a == 256 * b + a % 256 && b == 256 * (b / 256) + b % 256;
  }

  /** uint32 arithmetic. */
  function Wrapped(n: nat): (r: nat)
    ensures r < TWO_32 && (n < TWO_32 ==> r == n)
  {
    n % TWO_32
  }

  /** The record count of a batch; a batch too short for a header counts as empty. */
  function BatchCount(d: bytes): (n: nat)
    ensures n < TWO_32
  {
    if |d| < HEADER then 0 else FromLittleEndian(d[8..12])
  }

  /** The operations of a batch: what follows its header. */
  function Body(d: bytes): bytes { if |d| < HEADER then [] else d[HEADER..] }

  function Bodies(segments: seq<bytes>): bytes
    decreases |segments|
  {
    if segments == [] then [] else Bodies(segments[..|segments| - 1]) + Body(segments[|segments| - 1])
  }

  function Counts(segments: seq<bytes>): nat
    decreases |segments|
  {
    if segments == [] then 0 else Counts(segments[..|segments| - 1]) + BatchCount(segments[|segments| - 1])
  }

  function Flatten(segments: seq<bytes>): bytes
    decreases |segments|
  {
    if segments == [] then [] else Flatten(segments[..|segments| - 1]) + segments[|segments| - 1]
  }

  predicate AllHaveHeaders(segments: seq<bytes>) { forall i :: 0 <= i < |segments| ==> |segments[i]| >= HEADER }

  /** The first segment's sequence number, the total count, then every body; raw concatenation if
      some segment has no header. */
  function Merged(segments: seq<bytes>): bytes {
    if segments == [] then []
    else if |segments| == 1 then segments[0]
    else if AllHaveHeaders(segments) then segments[0][..8] + LittleEndian(Wrapped(Counts(segments))) + Bodies(segments)
    else Flatten(segments)
  }

  /** A merged batch holds the operations of all segments in order, and counts them. */
  lemma MergedIsOneBatch(segments: seq<bytes>)
    requires segments != [] && AllHaveHeaders(segments)
    ensures |Merged(segments)| >= HEADER
    ensures Body(Merged(segments)) == Bodies(segments)
    ensures BatchCount(Merged(segments)) == Wrapped(Counts(segments))
    ensures Merged(segments)[..8] == segments[0][..8]
  {
    if |segments| == 1 {
      assert segments[..0] == [];
      assert Bodies(segments) == [] + Body(segments[0]);
    } else {
      var n := Wrapped(Counts(segments));
      var head, count := segments[0][..8], LittleEndian(n);
      LittleEndianRoundTrip(n);
      var m := head + count + Bodies(segments);
      assert m[8..12] == count && m[12..] == Bodies(segments) && m[..8] == head;
    }
  }

  /** Bytes 8 to 12 of a batch as Pebble reads them: the least significant one first. */
  function CountField(d: bytes): int
    requires |d| >= 12
  {
    d[8] as int + 256 * d[9] as int + 65536 * d[10] as int + 16777216 * d[11] as int
  }

  /** The sum of these fields, not wrapped. */
  function CountFields(segments: seq<bytes>): int
    requires forall i :: 0 <= i < |segments| ==> |segments[i]| >= 12
    decreases |segments|
  {
    if segments == [] then 0 else CountFields(segments[..|segments| - 1]) + CountField(segments[|segments| - 1])
  }

  lemma {:induction false} CountsAreFields(segments: seq<bytes>)
    requires AllHaveHeaders(segments)
    ensures Counts(segments) == CountFields(segments)
    decreases |segments|
  {
    if segments != [] { CountsAreFields(segments[..|segments| - 1]); }
  }

  /** The count bytes of a merged batch hold the sum of the segments' count bytes, modulo 2^32. */
  lemma {:induction false} MergedCountBytes(segments: seq<bytes>)
    requires segments != [] && AllHaveHeaders(segments)
    ensures |Merged(segments)| >= 12 && CountField(Merged(segments)) == CountFields(segments) % 0x1_0000_0000
  {
    MergedIsOneBatch(segments);
    CountsAreFields(segments);
    hide Merged;
    FieldIsCount(Merged(segments));
  }

  lemma FieldIsCount(d: bytes)
    requires |d| >= HEADER
    ensures CountField(d) == BatchCount(d)
  {
  }

  /** One more segment: the same sequence number, its operations at the end, its count added. */
  lemma MergedGrows(segments: seq<bytes>, d: bytes)
    requires segments != [] && |d| >= 12 && forall i :: 0 <= i < |segments| ==> |segments[i]| >= 12
    ensures var before, after := Merged(segments), Merged(segments + [d]);
      && |before| >= 12 && |after| == |before| + |d| - 12
      && after[..8] == before[..8] && after[12..] == before[12..] + d[12..]
      && CountField(after) == (CountField(before) + CountField(d)) % 0x1_0000_0000
  {
    hide Merged, Bodies, CountField, CountFields, Counts, BatchCount, AllHaveHeaders;
    var longer := segments + [d];
    OneMore(segments, d);
    MergedIsOneBatch(segments);
    MergedIsOneBatch(longer);
    MergedCountBytes(segments);
    MergedCountBytes(longer);
    assert longer[0] == segments[0];
  }

  lemma OneMore(segments: seq<bytes>, d: bytes)
    requires |d| >= HEADER && forall i :: 0 <= i < |segments| ==> |segments[i]| >= HEADER
    ensures AllHaveHeaders(segments) && AllHaveHeaders(segments + [d])
    ensures Bodies(segments + [d]) == Bodies(segments) + d[HEADER..]
    ensures CountFields(segments + [d]) == CountFields(segments) + CountField(d)
  {
    assert (segments + [d])[..|segments|] == segments;
  }

  /* ---- The merge loop ---- */

  /** Go's copy(dst[pos:], src) for a destination that is large enough. */
  method CopyInto(dst: array<byte>, pos: nat, src: bytes)
    requires pos + |src| <= dst.Length
    modifies dst
    ensures dst[..pos] == old(dst[..pos]) && dst[pos..pos + |src|] == src
    ensures dst[pos + |src|..] == old(dst[pos + |src|..])
  {
    for i := 0 to |src|
      invariant dst[..pos] == old(dst[..pos]) && dst[pos..pos + i] == src[..i]
      invariant dst[pos + |src|..] == old(dst[pos + |src|..])
    {
      dst[pos + i] := src[i];
      assert dst[pos..pos + i + 1] == src[..i] + [src[i]];
    }
  }

  lemma {:induction false} LengthsAdd(segments: seq<bytes>, n: nat)
    requires AllHaveHeaders(segments) && n <= |segments|
    ensures |Bodies(segments[..n])| <= |Bodies(segments)|
    decreases |segments|
  {
    if n < |segments| {
      assert segments[..|segments| - 1][..n] == segments[..n];
      LengthsAdd(segments[..|segments| - 1], n);
    } else {
      assert segments[..n] == segments;
    }
  }

  lemma Snoc(segments: seq<bytes>, i: nat)
    requires i < |segments|
    ensures Bodies(segments[..i + 1]) == Bodies(segments[..i]) + Body(segments[i])
    ensures Counts(segments[..i + 1]) == Counts(segments[..i]) + BatchCount(segments[i])
    ensures Flatten(segments[..i + 1]) == Flatten(segments[..i]) + segments[i]
  {
    assert segments[..i + 1][..i] == segments[..i];
  }

  lemma First(segments: seq<bytes>)
    requires segments != []
    ensures Bodies(segments[..1]) == Body(segments[0]) && Counts(segments[..1]) == BatchCount(segments[0])
  {
    Snoc(segments, 0);
    assert segments[..0] == [];
  }

  lemma NoSegments(segments: seq<bytes>)
    requires segments == []
    ensures AllHaveHeaders(segments)
  {
  }

  lemma HasHeader(segments: seq<bytes>, i: nat)
    requires i < |segments| && AllHaveHeaders(segments)
    ensures |segments[i]| >= HEADER
  {
  }

  lemma HeadersSnoc(segments: seq<bytes>, i: nat)
    requires i < |segments|
    ensures AllHaveHeaders(segments[..i + 1]) <==> AllHaveHeaders(segments[..i]) && |segments[i]| >= HEADER
  {
    assert segments[..i + 1] == segments[..i] + [segments[i]];
  }

  /** The total size with stripped headers, and whether every segment has one. */
  method MeasureSegments(segments: seq<bytes>) returns (total: nat, allValid: bool)
    requires segments != []
    ensures allValid <==> AllHaveHeaders(segments)
    ensures allValid ==> total == HEADER + |Bodies(segments)|
  {
    hide Bodies, Counts, AllHaveHeaders;
    total, allValid := |segments[0]|, |segments[0]| >= HEADER;
    First(segments);
    HeadersSnoc(segments, 0);
    NoSegments(segments[..0]);
    for i := 1 to |segments|
      invariant allValid <==> AllHaveHeaders(segments[..i])
      invariant allValid ==> total == HEADER + |Bodies(segments[..i])|
    {
      Snoc(segments, i);
      HeadersSnoc(segments, i);
      if |segments[i]| < HEADER {
        allValid := false;
        total := total + |segments[i]|;
      } else {
        total := total + |segments[i]| - HEADER;
      }
    }
    assert segments[..|segments|] == segments;
  }

  /** The total count, in uint32 arithmetic. */
  method CountSegments(segments: seq<bytes>) returns (totalCount: nat)
    requires segments != []
    ensures totalCount == Wrapped(Counts(segments))
  {
    hide Counts, BatchCount, Wrapped;
    First(segments);
    totalCount := BatchCount(segments[0]);
    for i := 1 to |segments|
      invariant totalCount == Wrapped(Counts(segments[..i]))
    {
      Snoc(segments, i);
      WrapOnce(Counts(segments[..i]), BatchCount(segments[i]));
      totalCount := Wrapped(totalCount + BatchCount(segments[i]));
    }
    assert segments[..|segments|] == segments;
  }

  /** The first segment whole, then the bodies of the others, in one buffer. */
  method FillMerged(segments: seq<bytes>, result: array<byte>)
    requires segments != [] && AllHaveHeaders(segments) && result.Length == HEADER + |Bodies(segments)|
    modifies result
    ensures result[..HEADER] == segments[0][..HEADER] && result[HEADER..] == Bodies(segments)
  {
    First(segments);
    LengthsAdd(segments, 1);
    var pos := FillFirst(result, segments[0]);
    hide Bodies, AllHaveHeaders, Filled, Body;
    for i := 1 to |segments|
      invariant pos == HEADER + |Bodies(segments[..i])|
      invariant Filled(result, pos, segments[0][..HEADER], Bodies(segments[..i]))
    {
      HasHeader(segments, i);
      Snoc(segments, i);
      LengthsAdd(segments, i + 1);
      pos := AppendBody(result, pos, segments[i], segments[0][..HEADER], Bodies(segments[..i]));
    }
    assert segments[..|segments|] == segments;
    FilledToTheEnd(result, segments[0][..HEADER], Bodies(segments));
  }

  /** The first pos bytes of the buffer are a header and then some bodies. */
  ghost predicate Filled(result: array<byte>, pos: nat, header: bytes, bodies: bytes)
    reads result
  {
    HEADER <= pos <= result.Length && result[..HEADER] == header && result[HEADER..pos] == bodies
  }

  lemma FilledToTheEnd(result: array<byte>, header: bytes, bodies: bytes)
    requires Filled(result, result.Length, header, bodies)
    ensures result.Length >= HEADER && result[..HEADER] == header && result[HEADER..] == bodies
  {
  }

  method FillFirst(result: array<byte>, segment: bytes) returns (pos: nat)
    requires HEADER <= |segment| <= result.Length
    modifies result
    ensures pos == HEADER + |Body(segment)| && Filled(result, pos, segment[..HEADER], Body(segment))
  {
    CopyInto(result, 0, segment);
    pos := |segment|;
    assert result[..pos] == segment;
  }

  method AppendBody(result: array<byte>, pos: nat, segment: bytes, ghost header: bytes,
                    ghost bodies: bytes) returns (next: nat)
    requires |segment| >= HEADER && Filled(result, pos, header, bodies) && pos + |Body(segment)| <= result.Length
    modifies result
    ensures next == pos + |Body(segment)| && Filled(result, next, header, bodies + Body(segment))
  {
    ghost var done := result[..pos];
    CopyInto(result, pos, segment[HEADER..]);
    next := pos + |segment| - HEADER;
    SliceGrows(result[..], pos, done, segment[HEADER..]);
  }

  lemma SliceGrows(result: bytes, pos: nat, done: bytes, body: bytes)
    requires HEADER <= pos == |done| && pos + |body| <= |result| && result[..pos] == done &&
             result[pos..pos + |body|] == body
    ensures result[..HEADER] == done[..HEADER] && result[HEADER..pos + |body|] == done[HEADER..] + body
  {
    assert result[HEADER..pos] == done[HEADER..];
    assert result[HEADER..pos + |body|] == result[HEADER..pos] + result[pos..pos + |body|];
  }

  lemma WrapOnce(a: nat, b: nat)
    ensures Wrapped(Wrapped(a) + b) == Wrapped(a + b)
  {
  }

  method MergeBatchSegments(segments: seq<bytes>) returns (r: bytes)
    ensures r == Merged(segments)
    ensures segments != [] && AllHaveHeaders(segments) ==>
      && |r| >= 12 && r[..8] == segments[0][..8] && r[12..] == Bodies(segments)
      && r[8] as int + 256 * r[9] as int + 65536 * r[10] as int + 16777216 * r[11] as int
         == CountFields(segments) % 0x1_0000_0000
  {
    if segments != [] && AllHaveHeaders(segments) {
      MergedIsOneBatch(segments);
      MergedCountBytes(segments);
    }
    hide Bodies, LittleEndian, Counts, CountFields, Flatten, Wrapped, AllHaveHeaders;
    if |segments| == 0 { return []; }
    if |segments| == 1 { return segments[0]; }
    var total, allValid := MeasureSegments(segments);
    if !allValid {
      r := Concatenate(segments);
      return;
    }
    HasHeader(segments, 0);
    var result := new byte[total](_ => 0);
    FillMerged(segments, result);
    var totalCount := CountSegments(segments);
    assert result[..8] == result[..HEADER][..8] && segments[0][..HEADER][..8] == segments[0][..8];
    SetBatchCount(result, totalCount);
    return result[..];
  }

  /** The fallback for segments without a header. */
  method Concatenate(segments: seq<bytes>) returns (r: bytes)
    ensures r == Flatten(segments)
  {
    r := [];
    for i := 0 to |segments|
      invariant r == Flatten(segments[..i])
    {
      Snoc(segments, i);
      r := r + segments[i];
    }
    assert segments[..|segments|] == segments;
  }

  method SetBatchCount(d: array<byte>, n: nat)
    requires d.Length >= HEADER && n < TWO_32
    modifies d
    ensures d[..] == old(d[..8]) + LittleEndian(n) + old(d[HEADER..])
    ensures d[8] as int + 256 * d[9] as int + 65536 * d[10] as int + 16777216 * d[11] as int == n
  {
    LittleEndianRoundTrip(n);
    var was := LittleEndian(n);
    assert was[0] as int + 256 * was[1] as int + 65536 * was[2] as int + 16777216 * was[3] as int == n;
    hide LittleEndian;
    CopyInto(d, 8, LittleEndian(n));
    assert d[..] == d[..8] + d[8..12] + d[12..];
  }

  /* ---- The batch window ---- */

  /** The segments of one WAL object and the callers that wait for it. */
  datatype Batch = Batch(number: nat, segments: seq<bytes>, waiters: seq<nat>)

  /** nextSeq, the open window if there is one, and the closed flag. */
  datatype Mgr = Mgr(nextSeq: nat, window: Option<Batch>, closed: bool)

  /** WriteRecord, batching path: opens a window under a new sequence number if none is open. */
  function Accepted(m: Mgr, data: bytes, waiter: nat): Mgr {
    var w := if m.window.Some? then m.window.value else Batch(m.nextSeq, [], []);
    m.(nextSeq := if m.window.Some? then m.nextSeq else m.nextSeq + 1,
       window := Some(Batch(w.number, w.segments + [data], w.waiters + [waiter])))
  }

  function SequenceFor(m: Mgr): nat { if m.window.Some? then m.window.value.number else m.nextSeq }

  /** flushPending and Flush: the window is taken, nothing is left pending. */
  function WithoutWindow(m: Mgr): Mgr { m.(window := None) }

  class Manager {
    var nextSeq: nat
    var pending: Option<seq<bytes>>
    var pendingSeq: nat
    var waiters: seq<nat>
    var timerArmed: bool
    var closed: bool

    ghost predicate Valid()
      reads this
    {
      (pending.None? ==> waiters == []) && (pending.Some? ==> |pending.value| > 0)
    }

    ghost function View(): Mgr
      reads this
    {
      Mgr(nextSeq, if pending.Some? then Some(Batch(pendingSeq, pending.value, waiters)) else None, closed)
    }

    /** NewManager: continues after the last listed object, or starts at 1. */
    constructor (stored: set<nat>)
      ensures Valid() && View() == Mgr(NextSeqAfter(stored), None, false)
    {
      var entries := Listed(stored);
      nextSeq := if |entries| > 0 then entries[|entries| - 1] + 1 else 1;
      pending, pendingSeq, waiters, timerArmed, closed := None, 0, [], false, false;
      new;
      ReachesEnd(stored);
      assert |entries| > 0 ==> entries[0] in stored;
    }

    /** The critical section of WriteRecord. */
    method WriteRecord(data: bytes, waiter: nat) returns (r: Option<nat>)
      requires Valid()
      modifies this
      ensures Valid()
      ensures old(closed) ==> r == None && View() == old(View())
      ensures !old(closed) ==> View() == Accepted(old(View()), data, waiter) && r == Some(SequenceFor(old(View())))
    {
      if closed { return None; }
      if pending.None? {
        pendingSeq := nextSeq;
        nextSeq := nextSeq + 1;
        pending := Some([]);
        timerArmed := true;
      }
      pending := Some(pending.value + [data]);
      waiters := waiters + [waiter];
      return Some(pendingSeq);
    }

    /** The direct path of WriteRecord: an atomic increment, no window. */
    method AllocateSequence() returns (number: nat)
      requires Valid()
      modifies `nextSeq
      ensures Valid() && number == old(nextSeq) && View() == old(View()).(nextSeq := old(nextSeq) + 1)
    {
      number := nextSeq;
      nextSeq := nextSeq + 1;
    }

    /** The critical section of flushPending, and of Flush, which also stops the timer. */
    method TakeWindow(stopTimer: bool) returns (b: Option<Batch>)
      requires Valid()
      modifies this
      ensures Valid() && b == old(View().window) && View() == WithoutWindow(old(View()))
      ensures stopTimer ==> !timerArmed
    {
      if stopTimer { timerArmed := false; }
      b := if pending.Some? then Some(Batch(pendingSeq, pending.value, waiters)) else None;
      pending, pendingSeq, waiters := None, 0, [];
    }

    method Close()
      requires Valid()
      modifies this
      ensures Valid() && View() == old(View()).(closed := true) && !timerArmed
    {
      closed, timerArmed := true, false;
    }
  }
}
