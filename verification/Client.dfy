/** What a client makes of the chunk stream of ReadRows, if it reads it as the protocol's own
    documentation says (pkg/bigtable/bigtablepb/bigtable.pb.go, ReadRowsResponse.CellChunk): a missing
    row key, family or qualifier is that of the cell before, and a chunk with a size hint is continued
    by the next one. */
module Client {
  import opened Bytes
  import opened Encoding
  import opened Bounds
  import opened Table
  import opened Filter
  import opened Chunks
  import opened Scan
  import opened Emission
  import opened ScanMeaning
  import opened ScanRequest

  /* ---- The reader ---- */

  /** The cells read so far, and the one whose value is not complete. */
  datatype Reader = Reader(cells: Row, partial: Option<CellInfo>)

  /** A name as it is read after these cells; the first cell has no name to inherit. */
  function Inherits(before: Row, row: Option<bytes>, family: Option<bytes>, qualifier: Option<bytes>,
                    ts: int): Option<Cell> {
    if before == [] then
      if row.Some? && family.Some? && qualifier.Some? then Some(Cell(row.value, family.value, qualifier.value, ts))
      else None
    else
      var p := before[|before| - 1].cell;
      Some(Cell(if row.Some? then row.value else p.row, if family.Some? then family.value else p.family,
                if qualifier.Some? then qualifier.value else p.qualifier, ts))
  }

  function Finish(cells: Row, c: CellInfo, more: bool): Reader {
    if more then Reader(cells, Some(c)) else Reader(cells + [c], None)
  }

  function Receive(r: Option<Reader>, ch: Chunk): Option<Reader> {
    if r.None? then None
    else if r.value.partial.Some? then
      var c := r.value.partial.value;
      Some(Finish(r.value.cells, c.(value := c.value + ch.value), ch.valueSize > 0))
    else
      var row := if ch.rowKey == [] then None else Some(ch.rowKey);
      var name := Inherits(r.value.cells, row, ch.family, ch.qualifier, ch.ts);
      if name.None? then None else Some(Finish(r.value.cells, CellInfo(name.value, ch.value), ch.valueSize > 0))
  }

  function ReceiveAll(r: Option<Reader>, chunks: seq<Chunk>): Option<Reader>
    decreases |chunks|
  {
    if chunks == [] then r else Receive(ReceiveAll(r, chunks[..|chunks| - 1]), chunks[|chunks| - 1])
  }

  /** The cells of a complete stream, if it makes sense. */
  function ReadBack(chunks: seq<Chunk>): Option<Row> {
    var r := ReceiveAll(Some(Reader([], None)), chunks);
    if r.Some? && r.value.partial.None? then Some(r.value.cells) else None
  }

  /* ---- One cell ---- */

  /** The cells with the names that are read for them. */
  function Heard(cells: Row): Option<Row>
    decreases |cells|
  {
    if cells == [] then Some([])
    else
      var before, c := Heard(cells[..|cells| - 1]), cells[|cells| - 1];
      if before.None? then None
      else
        var name := HeardName(before.value, c.cell);
        if name.None? then None else Some(before.value + [CellInfo(name.value, c.value)])
  }

  function HeardName(before: Row, c: Cell): Option<Cell> {
    Inherits(before, Present(c.row), Present(c.family), Present(c.qualifier), c.ts)
  }

  lemma {:induction false} JoinSnoc(ps: seq<bytes>, k: nat)
    requires k < |ps|
    ensures Join(ps[..k + 1]) == Join(ps[..k]) + ps[k]
    decreases k
  {
    if k > 0 {
      JoinSnoc(ps[1..], k - 1);
      assert ps[..k + 1][1..] == ps[1..][..k] && ps[..k][1..] == ps[1..][..k - 1];
    } else {
      assert ps[..1] == [ps[0]] && ps[..1][1..] == [] && ps[..0] == [];
      assert ps[0] + [] == ps[0] == [] + ps[0];
    }
  }

  /** After some of a cell's chunks. */
  lemma {:induction false} CellPartRead(before: Row, c: CellInfo, k: nat)
    requires 0 < k <= |CellChunks(c)|
    ensures var name := HeardName(before, c.cell);
      ReceiveAll(Some(Reader(before, None)), CellChunks(c)[..k])
        == if name.None? then None
           else Some(Finish(before, CellInfo(name.value, Join(Pieces(c.value)[..k])), k < |CellChunks(c)|))
    decreases k
  {
    hide Inherits, Pieces, Join, HeardName;
    var cs, ps, start := CellChunks(c), Pieces(c.value), Some(Reader(before, None));
    MorePieces(c.value);
    assert cs[..k][..k - 1] == cs[..k - 1] && cs[..k][k - 1] == cs[k - 1] == PieceChunk(c, ps[k - 1], k - 1, |ps|);
    JoinSnoc(ps, k - 1);
    if k == 1 {
      NoPieces(ps);
      assert [] + ps[0] == ps[0];
      NameOfFirst(before, c, ps[0], |ps|);
    } else {
      CellPartRead(before, c, k - 1);
    }
  }

  lemma NoPieces(ps: seq<bytes>)
    ensures Join(ps[..0]) == []
  {
  }

  lemma NameOfFirst(before: Row, c: CellInfo, piece: bytes, n: nat)
    ensures var ch := PieceChunk(c, piece, 0, n);
      HeardName(before, c.cell)
        == Inherits(before, if ch.rowKey == [] then None else Some(ch.rowKey), ch.family, ch.qualifier, ch.ts)
  {
  }

  /** Only a value of some size has more than one piece. */
  lemma MorePieces(v: bytes)
    ensures |Pieces(v)| > 1 ==> SizeHint(|v|) > 0
  {
  }

  lemma CellRead(before: Row, c: CellInfo)
    ensures var name := HeardName(before, c.cell);
      ReceiveAll(Some(Reader(before, None)), CellChunks(c))
        == if name.None? then None else Some(Reader(before + [CellInfo(name.value, c.value)], None))
  {
    hide Pieces, Join, HeardName, ReceiveAll;
    var n := |CellChunks(c)|;
    CellPartRead(before, c, n);
    PiecesJoin(c.value);
    assert CellChunks(c)[..n] == CellChunks(c) && Pieces(c.value)[..n] == Pieces(c.value);
  }

  /* ---- The stream ---- */

  lemma {:induction false} ReceiveMore(r: Option<Reader>, a: seq<Chunk>, b: seq<Chunk>)
    ensures ReceiveAll(r, a + b) == ReceiveAll(ReceiveAll(r, a), b)
    decreases |b|
  {
    hide Receive;
    if b == [] {
      assert a + b == a;
    } else {
      var n := |b| - 1;
      assert (a + b)[..|a + b| - 1] == a + b[..n] && (a + b)[|a + b| - 1] == b[n];
      ReceiveMore(r, a, b[..n]);
    }
  }

  lemma {:induction false} NothingFromNone(chunks: seq<Chunk>)
    ensures ReceiveAll(None, chunks) == None
    decreases |chunks|
  {
    if chunks != [] { NothingFromNone(chunks[..|chunks| - 1]); }
  }

  /** A reader ignores commit marks. */
  lemma MarksAreIgnored(r: Option<Reader>, chunks: seq<Chunk>, commit: bool)
    ensures ReceiveAll(r, MarkLast(chunks, commit)) == ReceiveAll(r, chunks)
  {
    var marked := MarkLast(chunks, commit);
    if chunks != [] { assert marked[..|chunks| - 1] == chunks[..|chunks| - 1]; }
  }

  function ReaderOf(heard: Option<Row>): Option<Reader> { if heard.Some? then Some(Reader(heard.value, None)) else None }

  /** One more cell. */
  lemma CellHeard(cells: Row, c: CellInfo)
    ensures ReceiveAll(ReaderOf(Heard(cells)), CellChunks(c)) == ReaderOf(Heard(cells + [c]))
  {
    hide CellChunks, ReceiveAll;
    assert (cells + [c])[..|cells|] == cells;
    if Heard(cells).Some? { CellRead(Heard(cells).value, c); } else { NothingFromNone(CellChunks(c)); }
  }

  lemma {:induction false} RowHeard(cells: Row, more: Row)
    ensures ReceiveAll(ReaderOf(Heard(cells)), RowChunks(more)) == ReaderOf(Heard(cells + more))
    decreases |more|
  {
    hide CellChunks, Heard;
    if more == [] {
      assert cells + more == cells;
    } else {
      var n := |more| - 1;
      RowHeard(cells, more[..n]);
      ReceiveMore(ReaderOf(Heard(cells)), RowChunks(more[..n]), CellChunks(more[n]));
      hide ReceiveAll;
      CellHeard(cells + more[..n], more[n]);
      assert cells + more[..n] + [more[n]] == cells + more;
    }
  }

  function CellsOf(parts: seq<Part>): Row
    decreases |parts|
  {
    if parts == [] then [] else CellsOf(parts[..|parts| - 1]) + parts[|parts| - 1].cells
  }

  /** The whole stream of a scan, whatever was committed. */
  lemma {:induction false} StreamHeard(parts: seq<Part>)
    ensures ReceiveAll(Some(Reader([], None)), Mixed(parts).log) == ReaderOf(Heard(CellsOf(parts)))
    decreases |parts|
  {
    hide ReceiveAll, Heard, RowChunks, Pending, MarkLast;
    if parts == [] {
      NothingHeard();
    } else {
      var n := |parts| - 1;
      var o := Mixed(parts[..n]);
      var o' := AddRow(o, parts[n].cells);
      StreamHeard(parts[..n]);
      RowHeard(CellsOf(parts[..n]), parts[n].cells);
      ReceiveMore(Some(Reader([], None)), o.log, RowChunks(parts[n].cells));
      MarksAreIgnored(Some(Reader([], None)), o'.log, o'.pending > 0);
    }
  }

  lemma NothingHeard()
    ensures ReceiveAll(Some(Reader([], None)), []) == ReaderOf(Heard([]))
  {
  }

  /** Reading the stream of a scan back gives its cells, those with an empty row key, family or
      qualifier under the names of the cell before. */
  lemma ClientHears(parts: seq<Part>)
    ensures ReadBack(Mixed(parts).log) == Heard(CellsOf(parts))
  {
    hide Heard, Mixed, CellsOf;
    StreamHeard(parts);
  }

  /** No part of the name is empty. */
  predicate FullyNamed(c: Cell) { c.row != [] && c.family != [] && c.qualifier != [] }

  ghost predicate AllNamed(cells: Row) { forall i :: 0 <= i < |cells| ==> FullyNamed(cells[i].cell) }

  lemma {:induction false} HeardIff(cells: Row)
    ensures Heard(cells) == Some(cells) <==> AllNamed(cells)
    decreases |cells|
  {
    if cells != [] {
      hide Heard, HeardName, FullyNamed, AllNamed;
      var n := |cells| - 1;
      HeardIff(cells[..n]);
      HeardLast(cells);
      AllNamedLast(cells);
      if FullyNamed(cells[n].cell) { NamedIsHeard(cells[..n], cells[n].cell); }
      if Heard(cells) == Some(cells) { NamesInherited(cells, n); }
    }
  }

  lemma AllNamedLast(cells: Row)
    requires cells != []
    ensures AllNamed(cells) <==> AllNamed(cells[..|cells| - 1]) && FullyNamed(cells[|cells| - 1].cell)
  {
    hide FullyNamed;
    assert forall i :: 0 <= i < |cells| - 1 ==> cells[..|cells| - 1][i] == cells[i];
  }

  lemma NamedIsHeard(before: Row, c: Cell)
    requires FullyNamed(c)
    ensures HeardName(before, c) == Some(c)
  {
  }

  lemma HeardLast(cells: Row)
    requires cells != []
    ensures var n := |cells| - 1;
      Heard(cells) == Some(cells) <==>
        Heard(cells[..n]) == Some(cells[..n]) && HeardName(cells[..n], cells[n].cell) == Some(cells[n].cell)
  {
    hide HeardName;
    var n := |cells| - 1;
    assert cells == cells[..n] + [cells[n]];
    var before := Heard(cells[..n]);
    if Heard(cells) == Some(cells) {
      assert cells[..n] == before.value && cells[n].cell == HeardName(before.value, cells[n].cell).value;
    }
  }

  /** An empty name could only be inherited from an empty one. */
  lemma {:induction false} NamesInherited(cells: Row, n: nat)
    requires n < |cells| && Heard(cells) == Some(cells)
    ensures FullyNamed(cells[n].cell)
    decreases |cells|
  {
    var k := |cells| - 1;
    HeardLast(cells);
    assert cells == cells[..k] + [cells[k]];
    if n < k {
      NamesInherited(cells[..k], n);
    } else if k > 0 {
      NamesInherited(cells[..k], k - 1);
    }
  }

  /** A client reads the cells of a scan exactly if none of them has an empty row key, family or
      qualifier. */
  lemma ClientReadsIff(parts: seq<Part>)
    ensures ReadBack(Mixed(parts).log) == Some(CellsOf(parts)) <==> AllNamed(CellsOf(parts))
  {
    hide Mixed, ReadBack, Heard, AllNamed;
    ClientHears(parts);
    HeardIff(CellsOf(parts));
  }

  /* ---- From a stored table to the client ---- */

  lemma {:induction false} PlainParts(vs: seq<Visit>)
    ensures CellsOf(Parts(None, vs)) == Concat(RowsOf(vs))
    decreases |vs|
  {
    if vs != [] {
      var n := |vs| - 1;
      PlainParts(vs[..n]);
      assert Parts(None, vs)[..n] == Parts(None, vs[..n]) && RowsOf(vs)[..n] == RowsOf(vs[..n]);
    }
  }

  /** Without filter and limit a client gets what the request asks for, in order, exactly if it asks
      for no cell with an empty name. */
  lemma RequestRoundTrip(t: Table, rowKeys: seq<bytes>, rowRanges: seq<RowRange>, reversed: bool)
    requires ValidTable(t)
    ensures var vs := Visits(EncodeTable(t), ScanRanges(rowKeys, rowRanges), reversed);
      exists parts :: ReadsParts(parts, t, rowKeys, rowRanges, reversed)
        && (ReadBack(Mixed(Parts(None, Limited(vs, 0))).log) == Some(Concat(parts)) <==>
              forall c :: c in t && AskedFor(rowKeys, rowRanges, c) ==> FullyNamed(c))
  {
    hide Mixed, Concat, Visits, ScanRanges, EncodeTable, Meets, ReadBack, AskedFor, FullyNamed, Occurs, CellsOf, Parts;
    var vs := Visits(EncodeTable(t), ScanRanges(rowKeys, rowRanges), reversed);
    RequestReads(t, rowKeys, rowRanges, reversed);
    var parts :| ReadsParts(parts, t, rowKeys, rowRanges, reversed) && Concat(RowsOf(vs)) == Concat(parts);
    NoLimit(vs);
    PlainParts(vs);
    ClientReadsIff(Parts(None, vs));
    forall c ensures Occurs(Concat(parts), c) <==> c in t && AskedFor(rowKeys, rowRanges, c) {
      PartsHold(parts, t, rowKeys, rowRanges, reversed, c);
    }
    NamedCells(Concat(parts));
  }

  lemma NamedCells(cells: Row)
    ensures AllNamed(cells) <==> forall c :: Occurs(cells, c) ==> FullyNamed(c)
  {
    hide FullyNamed;
    assert forall i :: 0 <= i < |cells| ==> Occurs(cells, cells[i].cell);
  }

  /** What is read is stored and asked for, and the other way round. */
  lemma PartsHold(parts: seq<Row>, t: Table, rowKeys: seq<bytes>, rowRanges: seq<RowRange>, reversed: bool, c: Cell)
    requires ReadsParts(parts, t, rowKeys, rowRanges, reversed)
    ensures Occurs(Concat(parts), c) <==> c in t && AskedFor(rowKeys, rowRanges, c)
  {
    hide Concat, Occurs, AskedFor, HowMany, ReadsParts;
    if c in t {
      PartsAnswer(parts, t, rowKeys, rowRanges, reversed, c);
    } else {
      OccursInConcat(parts, c);
      PartsStored(parts, t, rowKeys, rowRanges, reversed, c);
    }
  }

  lemma PartsStored(parts: seq<Row>, t: Table, rowKeys: seq<bytes>, rowRanges: seq<RowRange>, reversed: bool, c: Cell)
    requires ReadsParts(parts, t, rowKeys, rowRanges, reversed) && c !in t
    ensures forall i :: 0 <= i < |parts| ==> !Occurs(parts[i], c)
  {
    hide Asks, HowMany, InCellOrder;
    assert forall i :: 0 <= i < |parts| ==> ReadsPart(parts[i], t, rowKeys, rowRanges, i, reversed);
  }
}
