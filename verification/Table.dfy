/** The wide-column table that the flat key-value map stands for. */
module Table {
  import opened Bytes
  import opened Encoding
  import opened Decoding
  import opened Pebble

  type Table = map<Cell, bytes>

  ghost predicate ValidTable(t: Table) { forall c :: c in t ==> ValidCell(c) }

  /** The map stores one entry per cell, under the cell's key. */
  ghost function EncodeTable(t: Table): (db: DB)
    requires ValidTable(t)
    ensures forall c :: ValidCell(c) ==> (CellKey(c) in db <==> c in t)
    ensures forall c :: c in t ==> db[CellKey(c)] == t[c]
    ensures forall k :: k in db ==> Decoded(k).Some? && Decoded(k).value in t
  {
    KeysDecode();
    map k | k in (set c | c in t :: CellKey(c)) :: t[Decoded(k).value]
  }

  lemma KeysDecode()
    ensures forall c :: ValidCell(c) ==> Decoded(CellKey(c)) == Some(c)
  {
    forall c | ValidCell(c) ensures Decoded(CellKey(c)) == Some(c) { DecodeEncode(c); }
  }

  /** A map is the encoding of a table as soon as it agrees with it cell by cell. */
  lemma EncodingIsUnique(db: DB, t: Table)
    requires ValidTable(t)
    requires forall k :: k in db ==> Decoded(k).Some?
    requires forall c :: ValidCell(c) ==> (CellKey(c) in db <==> c in t)
    requires forall c :: c in t ==> db[CellKey(c)] == t[c]
    ensures db == EncodeTable(t)
  {
    hide CellKey;
    forall k
      ensures k in db <==> k in EncodeTable(t)
      ensures k in db ==> db[k] == EncodeTable(t)[k]
    {
      if Decoded(k).Some? { assert CellKey(Decoded(k).value) == k; }
    }
  }

  /** Removing a set of cells is what a range deletion does if the range holds their keys and no
      other cell's. */
  lemma DeleteRangeRemoves(t: Table, lo: bytes, hi: bytes, doomed: set<Cell>)
    requires ValidTable(t)
    requires forall c :: c in t ==> (InRange(CellKey(c), lo, hi) <==> c in doomed)
    ensures ValidTable(t - doomed)
    ensures ApplyOp(EncodeTable(t), DeleteRange(lo, hi)) == EncodeTable(t - doomed)
  {
    var db := ApplyOp(EncodeTable(t), DeleteRange(lo, hi));
    EncodingIsUnique(db, t - doomed);
  }

  lemma SetWrites(t: Table, c: Cell, v: bytes)
    requires ValidTable(t) && ValidCell(c)
    ensures ApplyOp(EncodeTable(t), Set(CellKey(c), v)) == EncodeTable(t[c := v])
  {
    hide CellKey;
    var db := EncodeTable(t)[CellKey(c) := v];
    forall d | ValidCell(d)
      ensures CellKey(d) in db <==> d in t[c := v]
      ensures d in t[c := v] ==> db[CellKey(d)] == t[c := v][d]
    {
      OrderEmbedding(c, d);
    }
    DecodeEncode(c);
    EncodingIsUnique(db, t[c := v]);
  }
}
