/** The ReadRows response stream (pkg/bigtable/readrows.go): splitting values into chunks,
    buffering, flushing and commit marks. */
module Chunks {
  import opened Bytes
  import opened Encoding
  import opened Filter

  const CHUNK_BUFFER_SIZE: nat := 100
  const MAX_CHUNK_VALUE: nat := 65536
  const MAX_INT32: int := 0x7fff_ffff

  datatype Chunk = Chunk(rowKey: bytes, family: Option<bytes>, qualifier: Option<bytes>, ts: int,
                         value: bytes, valueSize: int, commit: bool)

  /* ---- Splitting a value ---- */

  /** The pieces of a value: full ones, then the rest. */
  function Pieces(v: bytes): (ps: seq<bytes>)
    ensures |ps| > 0
    decreases |v|
  {
    if |v| <= MAX_CHUNK_VALUE then [v] else [v[..MAX_CHUNK_VALUE]] + Pieces(v[MAX_CHUNK_VALUE..])
  }

  function Join(ps: seq<bytes>): bytes
    decreases |ps|
  {
    if ps == [] then [] else ps[0] + Join(ps[1..])
  }

  lemma {:induction false} PiecesJoin(v: bytes)
    ensures Join(Pieces(v)) == v
    ensures forall i :: 0 <= i < |Pieces(v)| ==> |Pieces(v)[i]| <= MAX_CHUNK_VALUE
    ensures forall i :: 0 <= i < |Pieces(v)| - 1 ==> |Pieces(v)[i]| == MAX_CHUNK_VALUE
    decreases |v|
  {
    if |v| > MAX_CHUNK_VALUE {
      var rest := v[MAX_CHUNK_VALUE..];
      PiecesJoin(rest);
      assert Pieces(v)[1..] == Pieces(rest);
    } else {
      assert Pieces(v)[1..] == [] && v + [] == v;
    }
  }

  /** The size hint of a piece that is not the last: the total size, saturated to int32. */
  function SizeHint(total: nat): int { if total > MAX_INT32 then MAX_INT32 else total }

  function Present(s: bytes): Option<bytes> { if s == [] then None else Some(s) }

  /** Piece i of n of a cell: only the first carries the cell's name, only the last has no hint. */
  function PieceChunk(c: CellInfo, piece: bytes, i: nat, n: nat): Chunk {
    var hint := if i + 1 < n then SizeHint(|c.value|) else 0;
    if i == 0
    then Chunk(c.cell.row, Present(c.cell.family), Present(c.cell.qualifier), c.cell.ts, piece, hint, false)
    else Chunk([], None, None, 0, piece, hint, false)
  }

  function CellChunks(c: CellInfo): (r: seq<Chunk>)
    ensures |r| > 0
  {
    var ps := Pieces(c.value);
    seq(|ps|, i requires 0 <= i < |ps| => PieceChunk(c, ps[i], i, |ps|))
  }

  /** The first chunk of a cell carries its name and timestamp, every one but the last a full piece and
      the total size, as far as an int32 holds it. */
  lemma CellChunksAre(c: CellInfo, i: nat)
    requires i < |CellChunks(c)|
    ensures var ch, last := CellChunks(c)[i], i == |CellChunks(c)| - 1;
      && (i == 0 ==> ch.rowKey == c.cell.row && ch.ts == c.cell.ts)
      && (i == 0 ==> ch.family == (if c.cell.family == [] then None else Some(c.cell.family)))
      && (i == 0 ==> ch.qualifier == (if c.cell.qualifier == [] then None else Some(c.cell.qualifier)))
      && (i > 0 ==> ch.rowKey == [] && ch.family == None && ch.qualifier == None && ch.ts == 0)
      && (if last then |ch.value| <= 65536 else |ch.value| == 65536)
      && ch.valueSize == (if last then 0 else if |c.value| < 0x8000_0000 then |c.value| else 0x7fff_ffff)
      && !ch.commit
  {
    PiecesJoin(c.value);
  }

  /** appendCellChunks: the splitting loop. */
  method AppendCellChunks(buf: seq<Chunk>, c: CellInfo) returns (r: seq<Chunk>)
    ensures r == buf + CellChunks(c)
  {
    var total := |c.value|;
    ghost var ps, cs, done := Pieces(c.value), CellChunks(c), [];
    if total <= MAX_CHUNK_VALUE {
      assert cs == [PieceChunk(c, c.value, 0, 1)];
      return buf + [Chunk(c.cell.row, Present(c.cell.family), Present(c.cell.qualifier), c.cell.ts, c.value, 0, false)];
    }
    r := buf;
    var offset := 0;
    assert c.value[0..] == c.value && cs[..0] == [];
    while offset < total
      invariant ps == done + if offset < total then Pieces(c.value[offset..]) else []
      invariant offset == 0 <==> done == []
      invariant r == buf + cs[..|done|]
      decreases total - offset
    {
      var end := if offset + MAX_CHUNK_VALUE < total then offset + MAX_CHUNK_VALUE else total;
      var hint := if end < total then SizeHint(total) else 0;
      var chunk;
      if offset == 0 {
        chunk := Chunk(c.cell.row, Present(c.cell.family), Present(c.cell.qualifier), c.cell.ts, c.value[offset..end], hint, false);
      } else {
        chunk := Chunk([], None, None, 0, c.value[offset..end], hint, false);
      }
      NextPiece(c.value, offset, end);
      ghost var k, next := |done|, done + [c.value[offset..end]];
      assert ps == next + if end < total then Pieces(c.value[end..]) else [];
      assert chunk == PieceChunk(c, c.value[offset..end], k, |ps|);
      assert cs[..k + 1] == cs[..k] + [chunk];
      done := next;
      r := r + [chunk];
      offset := offset + MAX_CHUNK_VALUE;
    }
    assert cs[..|cs|] == cs;
  }

  lemma NextPiece(v: bytes, offset: nat, end: nat)
    requires offset < |v| && end == if offset + MAX_CHUNK_VALUE < |v| then offset + MAX_CHUNK_VALUE else |v|
    ensures Pieces(v[offset..]) == [v[offset..end]] + if end < |v| then Pieces(v[end..]) else []
  {
    var rest := v[offset..];
    if end < |v| {
      assert rest[..MAX_CHUNK_VALUE] == v[offset..end] && rest[MAX_CHUNK_VALUE..] == v[end..];
    } else {
      assert rest == v[offset..end];
    }
  }

  /* ---- The stream ---- */

  function RowChunks(cells: Row): seq<Chunk>
    decreases |cells|
  {
    if cells == [] then [] else RowChunks(cells[..|cells| - 1]) + CellChunks(cells[|cells| - 1])
  }

  /** Chunks left in the buffer after a row's cells; a full buffer is sent as soon as a cell
      fills it. */
  function Pending(p: nat, cells: Row): nat
    decreases |cells|
  {
    if cells == [] then p
    else
      var q := Pending(p, cells[..|cells| - 1]) + |CellChunks(cells[|cells| - 1])|;
      if q >= CHUNK_BUFFER_SIZE then 0 else q
  }

  function MarkLast(cs: seq<Chunk>, commit: bool): (r: seq<Chunk>)
    ensures |r| == |cs|
  {
    if cs == [] || !commit then cs else cs[|cs| - 1 := cs[|cs| - 1].(commit := true)]
  }

  datatype Out = Out(log: seq<Chunk>, pending: nat)

  /** All chunks of the given rows and how many of them are still buffered: the last chunk of a
      row is committed exactly when appending the row's last cell did not send the buffer. */
  function Stream(rows: seq<Row>): Out
    decreases |rows|
  {
    if rows == [] then Out([], 0)
    else
      var n := |rows| - 1;
      var o := Stream(rows[..n]);
      var p := Pending(o.pending, rows[n]);
      Out(o.log + MarkLast(RowChunks(rows[n]), p > 0), p)
  }

  lemma {:induction false} PendingFits(p: nat, cells: Row)
    requires p < CHUNK_BUFFER_SIZE
    ensures Pending(p, cells) < CHUNK_BUFFER_SIZE
    ensures Pending(p, cells) <= p + |RowChunks(cells)|
    ensures cells == [] <==> RowChunks(cells) == []
    decreases |cells|
  {
    if cells != [] { PendingFits(p, cells[..|cells| - 1]); }
  }

  /** A non-empty buffer between rows ends in a committed chunk. */
  lemma {:induction false} BufferEndsCommitted(rows: seq<Row>)
    ensures var o := Stream(rows);
      && o.pending <= |o.log| && o.pending < CHUNK_BUFFER_SIZE
      && (o.pending > 0 ==> o.log[|o.log| - 1].commit)
    decreases |rows|
  {
    if rows != [] {
      var n := |rows| - 1;
      BufferEndsCommitted(rows[..n]);
      PendingFits(Stream(rows[..n]).pending, rows[n]);
    }
  }

  lemma MarkLastOfConcat(a: seq<Chunk>, b: seq<Chunk>, commit: bool)
    ensures b != [] ==> MarkLast(a + b, commit) == a + MarkLast(b, commit)
    ensures b == [] && (commit ==> a != [] && a[|a| - 1].commit) ==> MarkLast(a + b, commit) == a
  {
    if b == [] { assert a + b == a; }
  }

  /** Later rows never change the chunks of earlier ones. */
  lemma {:induction false} StreamGrows(rows: seq<Row>, i: nat)
    requires i <= |rows|
    ensures Stream(rows[..i]).log <= Stream(rows).log
    decreases |rows|
  {
    hide MarkLast, RowChunks, Pending;
    if i < |rows| {
      var n := |rows| - 1;
      assert rows[..n][..i] == rows[..i];
      StreamGrows(rows[..n], i);
    } else {
      assert rows[..i] == rows;
    }
  }

  /** In the chunk stream of a whole scan, the chunks of row i are its cells' chunks in order;
      none but its last is ever committed, and that one exactly when the row's last cell left
      something in the buffer. */
  lemma CommitMarks(rows: seq<Row>, i: nat)
    requires i < |rows|
    ensures var from, to := |Stream(rows[..i]).log|, |Stream(rows[..i + 1]).log|;
      && from <= to <= |Stream(rows).log|
      && to - from == |RowChunks(rows[i])|
      && forall k :: from <= k < to ==>
           Stream(rows).log[k] == RowChunks(rows[i])[k - from].(commit := k == to - 1 && Stream(rows[..i + 1]).pending > 0)
  {
    hide RowChunks, Pending, Stream;
    var o, s := Stream(rows[..i]), Stream(rows[..i + 1]);
    StreamRow(rows, i);
    StreamGrows(rows, i + 1);
    RowChunksUncommitted(rows[i]);
    assert forall k :: |o.log| <= k < |s.log| ==> Stream(rows).log[k] == s.log[k];
  }

  lemma StreamRow(rows: seq<Row>, n: nat)
    requires n < |rows|
    ensures var o, s := Stream(rows[..n]), Stream(rows[..n + 1]);
      s == Out(o.log + MarkLast(RowChunks(rows[n]), s.pending > 0), Pending(o.pending, rows[n]))
  {
    hide RowChunks, Pending, MarkLast;
    assert rows[..n + 1][..n] == rows[..n];
  }

  lemma {:induction false} RowChunksUncommitted(cells: Row)
    ensures forall k :: 0 <= k < |RowChunks(cells)| ==> !RowChunks(cells)[k].commit
    decreases |cells|
  {
    if cells != [] { RowChunksUncommitted(cells[..|cells| - 1]); }
  }

  /** A row that fills the buffer with its last cell is never committed: any row of exactly 100
      one-chunk cells at the start of a scan. */
  lemma FullBufferLosesTheCommit(cells: Row)
    requires |cells| == 100 && forall i :: 0 <= i < |cells| ==> |cells[i].value| <= MAX_CHUNK_VALUE
    ensures forall k :: 0 <= k < |Stream([cells]).log| ==> !Stream([cells]).log[k].commit
  {
    assert [cells][..0] == [];
    OneChunkEach(cells);
    RowChunksUncommitted(cells);
    assert [] + RowChunks(cells) == RowChunks(cells);
  }

  lemma {:induction false} OneChunkEach(cells: Row)
    requires |cells| <= CHUNK_BUFFER_SIZE && forall i :: 0 <= i < |cells| ==> |cells[i].value| <= MAX_CHUNK_VALUE
    ensures Pending(0, cells) == if |cells| < CHUNK_BUFFER_SIZE then |cells| else 0
    decreases |cells|
  {
    if cells != [] {
      OneChunkEach(cells[..|cells| - 1]);
      assert |CellChunks(cells[|cells| - 1])| == 1;
    }
  }

  /* ---- Rows that were started, and rows that were not ---- */

  /** What a row emits.  A row that the scan did not recognise as a new one is not started. */
  datatype Part = Part(cells: Row, started: bool)

  function AddRow(o: Out, cells: Row): Out { Out(o.log + RowChunks(cells), Pending(o.pending, cells)) }

  function Add(o: Out, c: CellInfo): Out {
    var q := o.pending + |CellChunks(c)|;
    Out(o.log + CellChunks(c), if q >= CHUNK_BUFFER_SIZE then 0 else q)
  }

  /** The mark on the last chunk, if it is still buffered. */
  function Commit(o: Out): Out { Out(MarkLast(o.log, o.pending > 0), o.pending) }

  /** All chunks and how many are still buffered.  The end of a started row marks the last buffered
      chunk, whosever it is; the end of another one marks nothing. */
  function Mixed(parts: seq<Part>): Out
    decreases |parts|
  {
    if parts == [] then Out([], 0)
    else
      var n := |parts| - 1;
      var o := AddRow(Mixed(parts[..n]), parts[n].cells);
      if parts[n].started then Commit(o) else o
  }

  /** The chunks that have left the buffer. */
  function Final(o: Out): seq<Chunk>
    requires o.pending <= |o.log|
  {
    o.log[..|o.log| - o.pending]
  }

  lemma AddRowSnoc(o: Out, cells: Row, c: CellInfo)
    ensures AddRow(o, cells + [c]) == Add(AddRow(o, cells), c)
  {
    assert (cells + [c])[..|cells|] == cells;
    assert o.log + RowChunks(cells) + CellChunks(c) == o.log + (RowChunks(cells) + CellChunks(c));
  }

  lemma AddNothing(o: Out)
    ensures AddRow(o, []) == o
  {
  }

  lemma CommitTwice(o: Out)
    ensures Commit(Commit(o)) == Commit(o)
  {
  }

  predicate Buffered(o: Out) { o.pending <= |o.log| && o.pending < CHUNK_BUFFER_SIZE }

  lemma {:induction false} RowIsBuffered(o: Out, cells: Row)
    requires Buffered(o)
    ensures Buffered(AddRow(o, cells)) && Final(o) <= Final(AddRow(o, cells))
    decreases |cells|
  {
    hide CellChunks;
    if cells != [] {
      var n := |cells| - 1;
      RowIsBuffered(o, cells[..n]);
      assert cells == cells[..n] + [cells[n]];
      AddRowSnoc(o, cells[..n], cells[n]);
    }
  }

  lemma {:induction false} MixedIsBuffered(parts: seq<Part>)
    ensures Buffered(Mixed(parts))
    decreases |parts|
  {
    hide AddRow;
    if parts != [] {
      var n := |parts| - 1;
      MixedIsBuffered(parts[..n]);
      RowIsBuffered(Mixed(parts[..n]), parts[n].cells);
    }
  }

  /** Neither the rest of a row nor later rows change what has left the buffer. */
  lemma {:induction false} FinalStays(parts: seq<Part>, n: nat, cells: Row)
    requires n < |parts| && cells <= parts[n].cells
    ensures Buffered(AddRow(Mixed(parts[..n]), cells)) && Buffered(Mixed(parts))
    ensures Final(AddRow(Mixed(parts[..n]), cells)) <= Final(Mixed(parts)) <= Mixed(parts).log
    decreases |parts|
  {
    hide AddRow, Commit;
    var k := |parts| - 1;
    var before := Mixed(parts[..k]);
    MixedIsBuffered(parts[..k]);
    MixedIsBuffered(parts[..n]);
    RowIsBuffered(Mixed(parts[..n]), cells);
    RowIsBuffered(before, parts[k].cells);
    CommitKeepsFinal(AddRow(before, parts[k].cells));
    if n < k {
      assert parts[..k][..n] == parts[..n];
      FinalStays(parts[..k], n, cells);
    } else {
      RowFinalStays(before, parts[k].cells, cells);
    }
  }

  lemma CommitKeepsFinal(o: Out)
    requires Buffered(o)
    ensures Buffered(Commit(o)) && Final(Commit(o)) == Final(o)
  {
  }

  lemma {:induction false} RowFinalStays(o: Out, cells: Row, begun: Row)
    requires Buffered(o) && begun <= cells
    ensures Buffered(AddRow(o, begun)) && Buffered(AddRow(o, cells)) &&
            Final(AddRow(o, begun)) <= Final(AddRow(o, cells))
    decreases |cells|
  {
    hide CellChunks;
    RowIsBuffered(o, begun);
    RowIsBuffered(o, cells);
    if |begun| < |cells| {
      var n := |cells| - 1;
      RowFinalStays(o, cells[..n], begun);
      assert cells == cells[..n] + [cells[n]];
      AddRowSnoc(o, cells[..n], cells[n]);
      CellFinalStays(AddRow(o, cells[..n]), cells[n]);
    } else {
      assert begun == cells;
    }
  }

  lemma CellFinalStays(o: Out, c: CellInfo)
    requires Buffered(o)
    ensures Buffered(Add(o, c)) && Final(o) <= Final(Add(o, c))
  {
    hide CellChunks;
  }

  function Started(rows: seq<Row>): (parts: seq<Part>)
    ensures |parts| == |rows| && forall i :: 0 <= i < |rows| ==> parts[i] == Part(rows[i], true)
  {
    seq(|rows|, i requires 0 <= i < |rows| => Part(rows[i], true))
  }

  /** If every row was started, the stream is the one whose rows are each committed on their own. */
  lemma {:induction false} StartedStream(rows: seq<Row>)
    ensures Mixed(Started(rows)) == Stream(rows)
    decreases |rows|
  {
    hide RowChunks, Pending, MarkLast;
    if rows != [] {
      var n := |rows| - 1;
      assert Started(rows)[..n] == Started(rows[..n]);
      StartedStream(rows[..n]);
      RowCommits(rows, n);
    }
  }

  lemma RowCommits(rows: seq<Row>, n: nat)
    requires n < |rows|
    ensures var o := Stream(rows[..n]);
      var p := Pending(o.pending, rows[n]);
      MarkLast(o.log + RowChunks(rows[n]), p > 0) == o.log + MarkLast(RowChunks(rows[n]), p > 0)
  {
    var o := Stream(rows[..n]);
    BufferEndsCommitted(rows[..n]);
    PendingFits(o.pending, rows[n]);
    MarkLastOfConcat(o.log, RowChunks(rows[n]), Pending(o.pending, rows[n]) > 0);
    NothingPending(o.pending);
    if rows[n] == [] { assert o.log + [] == o.log; }
  }

  lemma NothingPending(p: nat)
    ensures Pending(p, []) == p && RowChunks([]) == []
  {
  }

  /** The buffer, the stream it is sent to, and the mark on its last chunk.  accepts(i) says
      whether the i-th Send succeeds. */
  class Sender {
    const accepts: nat -> bool
    var sends: nat
    var delivered: seq<Chunk>
    var buf: seq<Chunk>

    constructor (accepts: nat -> bool)
      ensures this.accepts == accepts && sends == 0 && delivered == [] && buf == []
    {
      this.accepts := accepts;
      sends, delivered, buf := 0, [], [];
    }

    ghost predicate Holds(o: Out)
      reads this
    {
      delivered + buf == o.log && |buf| == o.pending
    }

    method CommitLast()
      modifies `buf
      ensures delivered + buf == MarkLast(old(delivered + buf), |old(buf)| > 0)
      ensures |buf| == |old(buf)|
    {
      if |buf| == 0 { return; }
      assert (delivered + buf)[|delivered + buf| - 1] == buf[|buf| - 1];
      buf := buf[|buf| - 1 := buf[|buf| - 1].(commit := true)];
    }

    method Flush() returns (ok: bool)
      modifies `sends, `delivered, `buf
      ensures buf == []
      ensures ok ==> delivered == old(delivered + buf)
      ensures !ok ==> delivered == old(delivered)
    {
      if |buf| == 0 { return true; }
      ok := accepts(sends);
      sends := sends + 1;
      if ok { delivered := delivered + buf; }
      buf := [];
    }

    /** Appends a cell, and sends the buffer if that fills it. */
    method Append(c: CellInfo, ghost o: Out) returns (ok: bool)
      requires Holds(o)
      modifies `sends, `delivered, `buf
      ensures ok ==> Holds(Add(o, c))
      ensures !ok ==> o.pending <= |o.log| && delivered == Final(o)
    {
      ghost var before := buf;
      buf := AppendCellChunks(buf, c);
      assert delivered + buf == delivered + before + CellChunks(c);
      assert delivered == (delivered + before)[..|delivered + before| - |before|];
      ok := true;
      if |buf| >= CHUNK_BUFFER_SIZE {
        ok := Flush();
      }
    }
  }
}
