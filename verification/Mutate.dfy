/** Row mutations (pkg/bigtable/mutate.go): the batch that a mutation list builds, and what that
    batch does to the table the flat map stands for. */
module Mutate {
  import opened Bytes
  import opened Encoding
  import opened Decoding
  import opened Bounds
  import opened Pebble
  import opened Table

  datatype TimeRange = TimeRange(start: int, end: int)

  datatype Mutation =
    | SetCell(family: bytes, qualifier: bytes, ts: int, value: bytes)
    | DeleteFromColumn(family: bytes, qualifier: bytes, range: Option<TimeRange>)
    | DeleteFromFamily(family: bytes)
    | DeleteFromRow
    | AddToCell
    | MergeToCell
    | UnknownMutation

  datatype Status = InvalidArgument | Unimplemented | Internal | FailedPrecondition | OutOfRange

  datatype Result<+T> = Ok(value: T) | Err(status: Status)

  /* ---- The batch ---- */

  /** -1 asks for the server's clock; a time range without an end ends now. */
  function CellTimestamp(ts: int, now: int): int { if ts == -1 then now else ts }
  function RangeEnd(r: TimeRange, now: int): int { if r.end == 0 then now else r.end }

  function MutationOp(row: bytes, m: Mutation, now: int): Result<Op> {
    match m
    case SetCell(family, qualifier, ts, value) =>
      if |family| > 255 || |qualifier| > 65535 then Err(InvalidArgument)
      else Ok(Set(CellKey(Cell(row, family, qualifier, CellTimestamp(ts, now))), value))
    case DeleteFromColumn(family, qualifier, range) =>
      var cp := ColumnOf(row, family, qualifier);
      if range.Some? then
        var (lo, hi) := TimestampRangeBounds(cp, range.value.start, RangeEnd(range.value, now));
        Ok(DeleteRange(lo, hi))
      else Ok(DeleteRange(cp, EndKey(cp)))
    case DeleteFromFamily(family) =>
      var fp := FamilyPrefix(RowPrefix(row), family);
      Ok(DeleteRange(fp, EndKey(fp)))
    case DeleteFromRow => Ok(DeleteRange(RowPrefix(row), EndKey(RowPrefix(row))))
    case AddToCell => Err(Unimplemented)
    case MergeToCell => Err(Unimplemented)
    case UnknownMutation => Err(InvalidArgument)
  }

  /** Why a mutation is refused, if it is. */
  function Refusal(m: Mutation): Option<Status> {
    match m
    case SetCell(family, qualifier, _, _) => if |family| < 256 && |qualifier| < 65536 then None else Some(InvalidArgument)
    case DeleteFromColumn(_, _, _) => None
    case DeleteFromFamily(_) => None
    case DeleteFromRow => None
    case AddToCell => Some(Unimplemented)
    case MergeToCell => Some(Unimplemented)
    case UnknownMutation => Some(InvalidArgument)
  }

  /** The operations before the first rejected mutation, and its status; clock[i] is the time
      read by mutation i. */
  function BatchOps(row: bytes, muts: seq<Mutation>, clock: seq<int>): (seq<Op>, Option<Status>)
    requires |clock| == |muts|
    decreases |muts|
  {
    if muts == [] then ([], None)
    else
      var n := |muts| - 1;
      var (ops, err) := BatchOps(row, muts[..n], clock[..n]);
      if err.Some? then (ops, err)
      else match MutationOp(row, muts[n], clock[n])
        case Ok(op) => (ops + [op], None)
        case Err(e) => (ops, Some(e))
  }

  lemma {:induction false} RejectionSticks(row: bytes, muts: seq<Mutation>, clock: seq<int>, n: nat)
    requires |clock| == |muts| && n <= |muts| && BatchOps(row, muts[..n], clock[..n]).1.Some?
    ensures BatchOps(row, muts, clock) == BatchOps(row, muts[..n], clock[..n])
    decreases |muts|
  {
    hide MutationOp;
    if n < |muts| {
      var k := |muts| - 1;
      assert muts[..k][..n] == muts[..n] && clock[..k][..n] == clock[..n];
      RejectionSticks(row, muts[..k], clock[..k], n);
    } else {
      assert muts[..n] == muts && clock[..n] == clock;
    }
  }

  predicate NoneRefused(muts: seq<Mutation>) { forall i :: 0 <= i < |muts| ==> Refusal(muts[i]) == None }

  predicate FirstRefused(muts: seq<Mutation>, i: int) {
    0 <= i < |muts| && Refusal(muts[i]).Some? && forall j :: 0 <= j < i ==> Refusal(muts[j]) == None
  }

  /** A list is accepted exactly if none of its mutations is refused; otherwise the first refused one
      gives the status, and the ones before it one operation each. */
  lemma {:induction false} AcceptedIff(row: bytes, muts: seq<Mutation>, clock: seq<int>)
    requires |clock| == |muts|
    ensures BatchOps(row, muts, clock).1 == None <==> NoneRefused(muts)
    ensures forall i :: FirstRefused(muts, i) ==>
      i < |muts| && BatchOps(row, muts, clock).1 == Refusal(muts[i]) && |BatchOps(row, muts, clock).0| == i
    ensures BatchOps(row, muts, clock).1 == None ==> |BatchOps(row, muts, clock).0| == |muts|
    decreases |muts|
  {
    hide MutationOp, Refusal, NoneRefused, FirstRefused;
    LastRefused(muts);
    if muts != [] {
      var n := |muts| - 1;
      AcceptedIff(row, muts[..n], clock[..n]);
      RefusedOp(row, muts[n], clock[n]);
    }
  }

  lemma LastRefused(muts: seq<Mutation>)
    ensures muts == [] ==> NoneRefused(muts) && forall i :: !FirstRefused(muts, i)
    ensures muts != [] ==> var n := |muts| - 1;
      && (NoneRefused(muts) <==> NoneRefused(muts[..n]) && Refusal(muts[n]) == None)
      && forall i :: FirstRefused(muts, i) <==>
           if i == n then NoneRefused(muts[..n]) && Refusal(muts[n]).Some?
           else i < n && FirstRefused(muts[..n], i) && muts[..n][i] == muts[i]
  {
    hide Refusal;
    if muts != [] {
      var n := |muts| - 1;
      assert forall i :: 0 <= i < n ==> muts[..n][i] == muts[i];
    }
  }

  lemma RefusedOp(row: bytes, m: Mutation, now: int)
    ensures match MutationOp(row, m, now) { case Ok(_) => Refusal(m) == None case Err(e) => Refusal(m) == Some(e) }
  {
    hide RowPrefix, CellKey;
  }

  lemma BatchOpsSnoc(row: bytes, muts: seq<Mutation>, clock: seq<int>, i: nat)
    requires |clock| == |muts| && i < |muts| && BatchOps(row, muts[..i], clock[..i]).1 == None
    ensures BatchOps(row, muts[..i + 1], clock[..i + 1])
      == match MutationOp(row, muts[i], clock[i])
         case Ok(op) => (BatchOps(row, muts[..i], clock[..i]).0 + [op], None)
         case Err(e) => (BatchOps(row, muts[..i], clock[..i]).0, Some(e))
  {
    hide MutationOp;
    assert muts[..i + 1][..i] == muts[..i] && clock[..i + 1][..i] == clock[..i];
  }

  lemma NoMutations(row: bytes)
    ensures BatchOps(row, [], []) == ([], None)
  {
  }

  method ApplyMutationsToBatch(batch: Batch, row: bytes, muts: seq<Mutation>,
                               clock: seq<int>) returns (err: Option<Status>)
    requires |clock| == |muts|
    modifies batch
    ensures batch.ops == old(batch.ops) + BatchOps(row, muts, clock).0
    ensures err == BatchOps(row, muts, clock).1
  {
    hide BatchOps, MutationOp;
    NoMutations(row);
    assert muts[..0] == [] && clock[..0] == [];
    for i := 0 to |muts|
      invariant batch.ops == old(batch.ops) + BatchOps(row, muts[..i], clock[..i]).0
      invariant BatchOps(row, muts[..i], clock[..i]).1 == None
    {
      BatchOpsSnoc(row, muts, clock, i);
      match MutationOp(row, muts[i], clock[i])
      case Ok(op) => batch.Append(op);
      case Err(e) =>
        RejectionSticks(row, muts, clock, i + 1);
        return Some(e);
    }
    assert muts[..|muts|] == muts && clock[..|clock|] == clock;
    return None;
  }

  /* ---- What the batch means ---- */

  /** The cells that a deletion is meant to remove. */
  predicate Targets(row: bytes, m: Mutation, now: int, c: Cell) {
    && c.row == row
    && match m {
         case DeleteFromColumn(family, qualifier, range) =>
           && c.family == family && c.qualifier == qualifier
           && (range.Some? ==> range.value.start <= c.ts)
           && (range.Some? && range.value.end != 0 ==> c.ts < range.value.end)
           && (range.Some? && range.value.end == 0 ==> c.ts < now)
         case DeleteFromFamily(family) => c.family == family
         case DeleteFromRow => true
         case _ => false
       }
  }

  /** The targets whose keys lie outside the deleted range. */
  predicate Spared(m: Mutation, c: Cell) {
    match m
    case DeleteFromColumn(_, _, range) =>
      if range.Some? then c.ts == MIN_INT64 else c.ts < MIN_INT64 + 0x100_0000_0000_0000
    case DeleteFromFamily(_) => |c.qualifier| >= 65280
    case DeleteFromRow => |c.family| == 255
    case _ => false
  }

  /** The abstract mutation; a timestamp of -1 is the server's time. */
  function Mutated(t: Table, row: bytes, m: Mutation, now: int): Table {
    if m.SetCell? && m.ts == -1 then t[Cell(row, m.family, m.qualifier, now) := m.value]
    else if m.SetCell? then t[Cell(row, m.family, m.qualifier, m.ts) := m.value]
    else map c | c in t && !Targets(row, m, now, c) :: t[c]
  }

  /** The names of a deletion fit the key layout; unlike SetCell, deletions do not test that. */
  predicate Fits(m: Mutation) {
    match m
    case DeleteFromColumn(family, qualifier, _) => |family| <= 255 && |qualifier| <= 65535
    case DeleteFromFamily(family) => |family| <= 255
    case _ => true
  }

  /** What is left of the prefix when a name does not fit. */
  function StrayPrefix(m: Mutation): bytes { if m.DeleteFromColumn? then ColumnPrefix([], m.qualifier) else [] }

  /** The cells whose keys happen to lie under that prefix, and what follows it in the range. */
  predicate Astray(m: Mutation, now: int, c: Cell) {
    var p, k := StrayPrefix(m), CellKey(c);
    && p <= k
    && if m.DeleteFromColumn? && m.range.Some? then
         var (lo, hi) := InvertedRange(m.range.value, now);
         InRange(k[|p|..], BigEndian(lo, 8), BigEndian(hi, 8))
       else |k| > |p| ==> k[|p|] < 255
  }

  /** The inverted timestamps that bound a time range. */
  function InvertedRange(r: TimeRange, now: int): (nat, nat) {
    (Shifted(InvertedTimestamp(RangeEnd(r, now))), Shifted(InvertedTimestamp(r.start)))
  }

  /** The cells that a deletion does remove. */
  predicate Removes(row: bytes, m: Mutation, now: int, c: Cell) {
    if Fits(m) then Targets(row, m, now, c) && !Spared(m, c) else Astray(m, now, c)
  }

  /** What the server performs. */
  function Performed(t: Table, row: bytes, m: Mutation, now: int): Table {
    if m.SetCell? then Mutated(t, row, m, now)
    else map c | c in t && !Removes(row, m, now, c) :: t[c]
  }

  /** Request fields are int64. */
  predicate Int64Fields(m: Mutation) {
    match m
    case SetCell(_, _, ts, _) => IsInt64(ts)
    case DeleteFromColumn(_, _, range) => range.Some? ==> IsInt64(range.value.start) && IsInt64(range.value.end)
    case _ => true
  }

  /** The deleted key range holds exactly the cells that the deletion is said to remove. */
  lemma DeletionExact(row: bytes, m: Mutation, now: int, c: Cell)
    requires Int64Fields(m) && IsInt64(now) && ValidCell(c)
    requires MutationOp(row, m, now).Ok? && !m.SetCell?
    ensures var op := MutationOp(row, m, now).value;
      op.DeleteRange? && (InRange(CellKey(c), op.lower, op.upper) <==> Removes(row, m, now, c))
  {
    hide CellKey, RowPrefix, InvertedTimestamp, Shifted;
    if !Fits(m) {
      StrayDeletion(row, m, now, CellKey(c));
    } else {
      hide ColumnOf, FamilyPrefix;
      match m
      case DeleteFromColumn(family, qualifier, range) =>
        if range.Some? {
          TimestampRangeExact(c, row, family, qualifier, range.value.start, RangeEnd(range.value, now));
        } else {
          ColumnBoundsExact(c, row, family, qualifier);
        }
      case DeleteFromFamily(family) => FamilyBoundsExact(c, row, family);
      case DeleteFromRow => RowBoundsExact(c, row);
    }
  }

  lemma StrayDeletion(row: bytes, m: Mutation, now: int, k: bytes)
    requires !Fits(m)
    ensures var op, p := MutationOp(row, m, now).value, StrayPrefix(m);
      && op.DeleteRange?
      && if m.DeleteFromColumn? && m.range.Some? then
           var (lo, hi) := InvertedRange(m.range.value, now);
           InRange(k, op.lower, op.upper) <==> p <= k && InRange(k[|p|..], BigEndian(lo, 8), BigEndian(hi, 8))
         else InRange(k, op.lower, op.upper) <==> p <= k && (|k| > |p| ==> k[|p|] < 255)
  {
    hide RowPrefix, InvertedTimestamp, Shifted, BigEndian;
    var p := StrayPrefix(m);
    if m.DeleteFromColumn? && m.range.Some? {
      var (lo, hi) := InvertedRange(m.range.value, now);
      RangeUnderPrefix(k, p, BigEndian(lo, 8), BigEndian(hi, 8));
    } else {
      UnderEndKey(k, p);
    }
  }

  /** One step of the simulation: the operation on keys does what the server performs on cells. */
  lemma StepSimulation(t: Table, row: bytes, m: Mutation, now: int)
    requires ValidTable(t) && Int64Fields(m) && IsInt64(now) && MutationOp(row, m, now).Ok?
    ensures ValidTable(Performed(t, row, m, now))
    ensures ApplyOp(EncodeTable(t), MutationOp(row, m, now).value) == EncodeTable(Performed(t, row, m, now))
  {
    hide CellKey;
    if m.SetCell? {
      SetWrites(t, Cell(row, m.family, m.qualifier, CellTimestamp(m.ts, now)), m.value);
    } else {
      forall c | c in t { DeletionExact(row, m, now, c); }
      DeletionSimulation(t, row, m, now, MutationOp(row, m, now).value);
    }
  }

  lemma DeletionSimulation(t: Table, row: bytes, m: Mutation, now: int, op: Op)
    requires ValidTable(t) && op.DeleteRange? && !m.SetCell?
    requires forall c :: c in t ==> (InRange(CellKey(c), op.lower, op.upper) <==> Removes(row, m, now, c))
    ensures ValidTable(Performed(t, row, m, now))
    ensures ApplyOp(EncodeTable(t), op) == EncodeTable(Performed(t, row, m, now))
  {
    hide CellKey, InRange, Removes, EncodeTable;
    var doomed := set c | c in t && Removes(row, m, now, c);
    DeleteRangeRemoves(t, op.lower, op.upper, doomed);
    assert t - doomed == Performed(t, row, m, now);
  }

  function PerformedAll(t: Table, row: bytes, muts: seq<Mutation>, clock: seq<int>): Table
    requires |clock| == |muts|
    decreases |muts|
  {
    if muts == [] then t
    else var n := |muts| - 1; Performed(PerformedAll(t, row, muts[..n], clock[..n]), row, muts[n], clock[n])
  }

  function MutatedAll(t: Table, row: bytes, muts: seq<Mutation>, clock: seq<int>): Table
    requires |clock| == |muts|
    decreases |muts|
  {
    if muts == [] then t
    else var n := |muts| - 1; Mutated(MutatedAll(t, row, muts[..n], clock[..n]), row, muts[n], clock[n])
  }

  ghost predicate Requests(muts: seq<Mutation>, clock: seq<int>) {
    && |clock| == |muts|
    && forall i :: 0 <= i < |muts| ==> Int64Fields(muts[i]) && IsInt64(clock[i])
  }

  /** For every mutation list and every table: the batch on the encoded map is the performed
      mutations, in order, on the table. */
  lemma {:induction false} MutationSimulation(t: Table, row: bytes, muts: seq<Mutation>, clock: seq<int>)
    requires ValidTable(t) && Requests(muts, clock) && BatchOps(row, muts, clock).1 == None
    ensures ValidTable(PerformedAll(t, row, muts, clock))
    ensures ApplyOps(EncodeTable(t), BatchOps(row, muts, clock).0) == EncodeTable(PerformedAll(t, row, muts, clock))
    decreases |muts|
  {
    if muts != [] {
      hide MutationOp, ApplyOp, Performed;
      var n := |muts| - 1;
      var rest := BatchOps(row, muts[..n], clock[..n]);
      MutationSimulation(t, row, muts[..n], clock[..n]);
      StepSimulation(PerformedAll(t, row, muts[..n], clock[..n]), row, muts[n], clock[n]);
      ApplyOpsSnoc(EncodeTable(t), rest.0, MutationOp(row, muts[n], clock[n]).value);
    }
  }

  /** A performed mutation is the abstract one exactly on the tables without a spared target, or, if
      its names do not fit, without a cell astray. */
  lemma PerformedIsMutated(t: Table, row: bytes, m: Mutation, now: int)
    requires ValidTable(t)
    ensures Performed(t, row, m, now) == Mutated(t, row, m, now) <==>
      || m.SetCell?
      || (Fits(m) && forall c :: c in t && Targets(row, m, now, c) ==> !Spared(m, c))
      || (!Fits(m) && forall c :: c in t ==> !Astray(m, now, c))
  {
    hide Astray, Spared;
    if !m.SetCell? {
      var p, a := Performed(t, row, m, now), Mutated(t, row, m, now);
      if Fits(m) {
        assert forall c :: c in t && Targets(row, m, now, c) && Spared(m, c) ==> c in p && c !in a;
        assert forall c :: c in a ==> c in p && p[c] == a[c];
        if forall c :: c in t && Targets(row, m, now, c) ==> !Spared(m, c) { assert p.Keys == a.Keys; }
      } else {
        assert forall c :: c in t ==> c in a && (Astray(m, now, c) <==> c !in p);
        if forall c :: c in t ==> !Astray(m, now, c) { assert p.Keys == a.Keys; }
      }
    }
  }

  /** Cells that no deletion spares. */
  predicate Narrow(c: Cell) {
    |c.family| <= 254 && |c.qualifier| < 65280 && c.ts >= MIN_INT64 + 0x100_0000_0000_0000
  }

  /** Names that fit; written cells that no deletion spares. */
  ghost predicate NarrowMutation(m: Mutation, now: int) {
    Fits(m) && (m.SetCell? ==> Narrow(Cell([], m.family, m.qualifier, if m.ts == -1 then now else m.ts)))
  }

  /** On narrow tables a narrow mutation list performs the abstract mutations. */
  lemma {:induction false} NarrowTablesMutate(t: Table, row: bytes, muts: seq<Mutation>, clock: seq<int>)
    requires |clock| == |muts| && forall c :: c in t ==> ValidCell(c) && Narrow(c)
    requires Requests(muts, clock)
    requires forall i :: 0 <= i < |muts| ==> NarrowMutation(muts[i], clock[i])
    ensures PerformedAll(t, row, muts, clock) == MutatedAll(t, row, muts, clock)
    ensures forall c :: c in MutatedAll(t, row, muts, clock) ==> ValidCell(c) && Narrow(c)
    decreases |muts|
  {
    if muts != [] {
      var n := |muts| - 1;
      NarrowTablesMutate(t, row, muts[..n], clock[..n]);
      PerformedIsMutated(MutatedAll(t, row, muts[..n], clock[..n]), row, muts[n], clock[n]);
    }
  }

  /** Mutations of one row leave every cell of every other row as it was. */
  lemma {:induction false} OtherRowsUntouched(t: Table, row: bytes, muts: seq<Mutation>, clock: seq<int>, c: Cell)
    requires |clock| == |muts| && c.row != row && forall i :: 0 <= i < |muts| ==> Fits(muts[i])
    ensures c in PerformedAll(t, row, muts, clock) <==> c in t
    ensures c in t ==> PerformedAll(t, row, muts, clock)[c] == t[c]
    decreases |muts|
  {
    if muts != [] { OtherRowsUntouched(t, row, muts[..|muts| - 1], clock[..|muts| - 1], c); }
  }

  /** What the last mutation of an accepted list leaves under a cell's key, if it is a SetCell: the
      value under the server's time for -1, under the given timestamp otherwise; nothing else. */
  lemma SetCellLands(t: Table, row: bytes, muts: seq<Mutation>, clock: seq<int>, c: Cell)
    requires ValidTable(t) && Requests(muts, clock) && BatchOps(row, muts, clock).1 == None && ValidCell(c)
    requires muts != [] && muts[|muts| - 1].SetCell?
    ensures var n := |muts| - 1;
      var m, now := muts[n], clock[n];
      var before := ApplyOps(EncodeTable(t), BatchOps(row, muts[..n], clock[..n]).0);
      var after := ApplyOps(EncodeTable(t), BatchOps(row, muts, clock).0);
      var written := c == Cell(row, m.family, m.qualifier, if m.ts == -1 then now else m.ts);
      && (CellKey(c) in after <==> written || CellKey(c) in before)
      && (CellKey(c) in after ==> after[CellKey(c)] == if written then m.value else before[CellKey(c)])
  {
    hide CellKey, ApplyOp, ApplyOps, EncodeTable, BatchOps, PerformedAll, Performed;
    LastMutation(t, row, muts, clock);
    var n := |muts| - 1;
    var before := PerformedAll(t, row, muts[..n], clock[..n]);
    SetCellPerformed(before, row, muts[n], clock[n], c);
    EncodedAt(before, c);
    EncodedAt(Performed(before, row, muts[n], clock[n]), c);
  }

  /** And if it deletes a time range of a column whose names fit: exactly the column's cells with
      start <= ts < end are gone, ts < now for an end of 0. */
  lemma TimeRangeDeletes(t: Table, row: bytes, muts: seq<Mutation>, clock: seq<int>, c: Cell)
    requires ValidTable(t) && Requests(muts, clock) && BatchOps(row, muts, clock).1 == None && ValidCell(c)
    requires muts != [] && muts[|muts| - 1].DeleteFromColumn? && muts[|muts| - 1].range.Some? && Fits(muts[|muts| - 1])
    ensures var n := |muts| - 1;
      var m, now := muts[n], clock[n];
      var before := ApplyOps(EncodeTable(t), BatchOps(row, muts[..n], clock[..n]).0);
      var after := ApplyOps(EncodeTable(t), BatchOps(row, muts, clock).0);
      var column := c.row == row && c.family == m.family && c.qualifier == m.qualifier && c.ts != MIN_INT64;
      var ended := if m.range.value.end == 0 then c.ts < now else c.ts < m.range.value.end;
      && (CellKey(c) in after <==> CellKey(c) in before && !(column && m.range.value.start <= c.ts && ended))
      && (CellKey(c) in after ==> after[CellKey(c)] == before[CellKey(c)])
  {
    hide CellKey, MutationOp, ApplyOp, ApplyOps, EncodeTable;
    LastMutation(t, row, muts, clock);
  }

  lemma SetCellPerformed(t: Table, row: bytes, m: Mutation, now: int, c: Cell)
    requires m.SetCell?
    ensures var after := Performed(t, row, m, now);
      var written := c == Cell(row, m.family, m.qualifier, if m.ts == -1 then now else m.ts);
      (c in after <==> written || c in t) && (c in after ==> after[c] == if written then m.value else t[c])
  {
  }

  lemma EncodedAt(t: Table, c: Cell)
    requires ValidTable(t) && ValidCell(c)
    ensures CellKey(c) in EncodeTable(t) <==> c in t
    ensures c in t ==> EncodeTable(t)[CellKey(c)] == t[c]
  {
  }

  /** The protocol documents a missing end as infinity; the server takes its own time.  The deletion is
      the documented one exactly on tables without a cell of the column from now on. */
  lemma OpenEndIsInfinityIff(t: Table, row: bytes, family: bytes, qualifier: bytes, start: int, now: int)
    requires ValidTable(t) && |family| <= 255 && |qualifier| <= 65535
    ensures var m := DeleteFromColumn(family, qualifier, Some(TimeRange(start, 0)));
      Performed(t, row, m, now)
        == (map c | c in t && !(c.row == row && c.family == family && c.qualifier == qualifier && start <= c.ts) :: t[c])
      <==> forall c :: c in t && c.row == row && c.family == family && c.qualifier == qualifier && start <= c.ts ==>
             c.ts < now && c.ts != MIN_INT64
  {
    var m := DeleteFromColumn(family, qualifier, Some(TimeRange(start, 0)));
    var p := Performed(t, row, m, now);
    var documented: Table :=
      map c | c in t && !(c.row == row && c.family == family && c.qualifier == qualifier && start <= c.ts) :: t[c];
    forall c | c in t && c.row == row && c.family == family && c.qualifier == qualifier && start <= c.ts
      ensures c !in documented && (c in p <==> !(c.ts < now && c.ts != MIN_INT64))
    {
    }
    if p.Keys == documented.Keys { assert p == documented; }
  }

  lemma LastMutation(t: Table, row: bytes, muts: seq<Mutation>, clock: seq<int>)
    requires ValidTable(t) && Requests(muts, clock) && BatchOps(row, muts, clock).1 == None && muts != []
    ensures var n := |muts| - 1;
      var before := PerformedAll(t, row, muts[..n], clock[..n]);
      && BatchOps(row, muts[..n], clock[..n]).1 == None
      && ValidTable(before) && ValidTable(Performed(before, row, muts[n], clock[n]))
      && ApplyOps(EncodeTable(t), BatchOps(row, muts[..n], clock[..n]).0) == EncodeTable(before)
      && ApplyOps(EncodeTable(t), BatchOps(row, muts, clock).0) == EncodeTable(Performed(before, row, muts[n], clock[n]))
  {
    hide CellKey, MutationOp, ApplyOp, ApplyOps, Performed;
    MutationSimulation(t, row, muts[..|muts| - 1], clock[..|muts| - 1]);
    MutationSimulation(t, row, muts, clock);
  }

  /* ---- The request ---- */

  /** A table of the server.  applied says whether the storage engine accepts the batch. */
  class TableServer {
    var db: DB

    constructor ()
      ensures db == map[]
    {
      db := map[];
    }

    method MutateRow(row: bytes, muts: seq<Mutation>, clock: seq<int>, applied: bool) returns (err: Option<Status>)
      requires |clock| == |muts|
      modifies this
      ensures err == if row == [] || muts == [] then Some(InvalidArgument)
                     else if BatchOps(row, muts, clock).1.Some? then BatchOps(row, muts, clock).1
                     else if !applied then Some(Internal) else None
      ensures err == None <==> row != [] && muts != [] && applied && NoneRefused(muts)
      ensures db == if err == None then ApplyOps(old(db), BatchOps(row, muts, clock).0) else old(db)
    {
      AcceptedIff(row, muts, clock);
      hide BatchOps, ApplyOps;
      if row == [] || muts == [] { return Some(InvalidArgument); }
      var batch := new Batch();
      err := ApplyMutationsToBatch(batch, row, muts, clock);
      if err.Some? { return; }
      if !applied { return Some(Internal); }
      assert batch.ops == BatchOps(row, muts, clock).0;
      db := ApplyOps(db, batch.ops);
    }
  }
}
