# CloudPebble in Dafny

CloudPebble is a Bigtable-style wide-column store on an ordered key-value map (Pebble) that is made
durable by a write-ahead log and checkpoints in object storage. This project models its four cores
and proves what they promise, for all inputs and all runs:

1. **The WAL manager and the engine's durability protocol** (`Listing`, `Wal`, `WalProtocol`,
   `Durability`, `Progress`, `WindowOrder`, `Recovery`, `Engine`).
   `Wal` holds the data of the manager: the merge of batch representations as an in-place buffer
   algorithm, and the critical sections as a class. `WalProtocol` is the concurrent manager as a step
   machine; its steps use the same functions that the class is proved against. `Durability` puts the
   engine on top of that machine: concurrent writers, Sync, GC, crashes and reopening. `Recovery` is
   the one-at-a-time engine with real database contents, real checkpoint files and failing Syncs;
   `Engine` is its imperative form, with every loop of the code.
2. **The wide-column table on flat keys** (`Bytes`, `Encoding`, `Decoding`, `Bounds`, `Pebble`,
   `Table`, `Mutate`, `StrayDeletions`, `ReadModifyWrite`): key order, the decoders, exact range bounds, and the
   simulation of table mutations by range deletions and sets on encoded keys.
3. **The RowFilter evaluator** (`Filter`, `FilterMeaning`, `FilterLeaves`, `StatelessFilters`,
   `DocumentedFilters`, `ColumnLimit`, `FilterTree`, `CheckAndMutate`): the cell-at-a-time tree, its
   row-at-a-time meaning, both against the documented one, and the tree as objects that change in
   place.
4. **The ReadRows scan** (`Scan`, `ScanRequest`, `Chunks`, `Emission`, `ReadRows`, `ScanMeaning`,
   `Client`): row sets, row boundaries, limit, filter reset, chunking, buffering, commit marks, failed
   Sends, and what a client reads back.

How to read the central theorems:

- `WalProtocol.RunInv` is an inductive invariant over every interleaving of WriteRecord, timer
  flushes (also of stopped timers), Flush, Close, GC deletions and Puts that succeed, fail, or fail
  after they reached the store. `Conservation`, `AcksAreHonest`, `NoPathIsPutTwice`, `FlushBarrier`
  and `BatchingIsInvisible` are read off it.
- `Durability.AckedIsDurable` is coverage over every run, with crashes and reopens at any step. It
  needs three things of a run (`Calm`): a checkpoint holds every batch numbered up to the captured
  maximum that is acknowledged or not yet refused; GC takes no orphan with such a batch that the
  manifest's checkpoint lacks; a reopened manager starts above MaxWALSeq. They are exact: in every
  state of such a run, a step leaves coverage safe, whatever follows under the same conditions, if
  and only if it meets its condition (`CalmIsExact`). Running Sync with no write in flight is one
  way to meet the first two (`QuietRunsAreRuns`).
- `Progress.EveryWaiterCanHear` and `Progress.EveryWriterCanReturn` say that nothing gets stuck: from
  every state of every run, whichever Puts fail, finishing what was begun ends at rest.
- `Recovery.RecoveryEquality` says that checkpoint plus replay equals the acknowledged batches in
  order, wherever GC or the process stopped in the GC loop, in every run in which no Sync has failed
  since the last one that wrote its manifest (`NeverTorn`). A Sync that fails earlier keeps this
  exactly if it has not yet deleted or overwritten a file of the old manifest
  (`FailedSyncTearsIff`).  All of it assumes of Pebble only that numbered files, whose names start
  with a digit, never change, and that the other files of a checkpoint are `CURRENT`, `MANIFEST-*`,
  `OPTIONS-*`, `marker.format-version*` or `marker.manifest*` (`Respects`).
- `Mutate.MutationSimulation` holds for every table and every list of accepted mutations, over-long
  names included, because it is stated about what the server performs (`Performed`);
  `PerformedIsMutated` says exactly when that is the abstract mutation.
- `ReadModifyWrite.RulesRunByColumn` says what a request does to each column for every table and
  rule list; `FoldsIff` says exactly for which requests that is the fold of the rules.
- `FilterMeaning.EvaluatorMeansFilter` gives the evaluator tree its compositional meaning.
  `StatelessFilters.PassesCellByCell` and `DocumentedFilters` compare that meaning with the documented
  one.
- `ReadRows.ReadRowsRequest` says for every database, request and filter what a scan delivers,
  `ScanRequest.RequestReads` which cells of a stored table that is, `ScanMeaning.ScanMeansRowsIff`
  exactly when it is the filter's meaning on each row alone, and `Client.RequestRoundTrip` exactly
  when a client can read it back.

## Where the code does less than its documentation says

Each of these is proved here, with the condition under which the promise does hold, exact where it
says "exactly" or ends in `Iff`.

- A family or qualifier too long for the key layout makes the encoder return a nil prefix, and
  deletions do not test for that. With a family over 255 bytes DeleteFromFamily, and with a qualifier
  over 65535 bytes DeleteFromColumn, deletes every row whose key does not start with 0xFF
  (`OverlongFamilyDeletion`, `OverlongQualifierDeletion`). With a family over 255 bytes
  DeleteFromColumn ignores the row it was given and reads the qualifier, with its length before it,
  as a key (`OverlongFamilyInColumn`): nothing is deleted for a qualifier of 1 to 254 bytes
  (`ShortQualifiersStray`), another row or part of one may be for longer ones.
  `FamilyDeletionIsLocal` and `ColumnDeletionIsLocal` say exactly which deletions stay in their row.
  Read-modify-write requests with such names read and write one column shared by all rows
  (`RowsShareAColumnIff`, `OtherRowReads`).
- A row's end key appends 0xFF, so cells with a 255-byte family, which SetCell admits, sort behind
  it; likewise qualifiers of 65280 bytes and more behind a family's end key, and timestamps below
  -2^63 + 2^56 behind a column's (`RowBoundsExact`, `FamilyBoundsExact`, `ColumnBoundsExact`).
- The per-column limit counts under family, 0x00, qualifier: it drops cells of other columns exactly
  if one family extends another by a null byte (`ColumnLimitExactIff`).
- A row whose last cell fills the chunk buffer is sent without `commit_row`
  (`CommitMarks`, `FullBufferLosesTheCommit`).
- A range that starts with a cell of the empty row, whose key only MutateRows can write, does not
  count that row against the limit, does not reset the filter for it, and does not commit it at its
  end: its last chunk is committed only if it is still the last one buffered when a later, started
  row ends (`OnCell`, `Chunks.Mixed`). Scans have the filter's meaning exactly if no range starts so
  (`ScanMeansRowsIff`, `StartsNamedIff`).
- An empty qualifier, which the protocol allows, and an empty family are sent as missing, which the
  protocol reads as those of the cell before: a client gets the cells of a scan as they are exactly if
  none has an empty row key, family or qualifier (`ClientReadsIff`, `RequestRoundTrip`).
- A condition decides cell by cell, where the documentation lets the predicate's output on the whole
  row choose the branch: the two agree for all branches exactly on rows that the predicate keeps whole
  or not at all (`ConditionIsDocumentedIff`). A missing true filter passes what it should drop
  (`MissingBranchPasses`).
- An interleave outputs a cell once, where the documentation pools the output of all branches: the two
  agree exactly if no cell passes two branches (`InterleaveIsDocumentedIff`). Branches with counters
  count only what the branches before them rejected (`CountersShareARow`).
- An empty string as the end of a column or value range, or as its open start, is no bound
  (`RangeIsDocumentedIff`); a timestamp range without a positive start lets negative timestamps in
  (`TimestampsAreDocumentedIff`); a bitmask keeps values that are longer than the mask if the rest is
  zero (`BitmaskIsDocumentedIff`).
- A deletion of a time range without an end stops at the server's time, where the documentation says
  infinity: the two agree exactly if the column has no cell from then on (`OpenEndIsInfinityIff`).
- A cell newer than the server's clock hides the effect of earlier rules of the same
  read-modify-write request, exactly for columns that the request addresses twice (`FoldsIff`).
- After GC has emptied the log, a new manager restarts at 1 and the next acknowledged write is not
  recovered (`ReopenIsSafeIff`); a write that runs inside a Sync can be acknowledged and lost
  (`RacingSyncLoses`, `CaptureIsSafeIff`).
- A node opened in eventual mode that writes before its first replay pass never replays the log, and
  its next Sync makes that permanent (`WriteHidesTheLog`, `EventualWriteForgetsTheLog`); that is
  harmless exactly if no object is numbered above MaxWALSeq (`HealsIffNothingAbove`). No write is
  needed if its first Sync comes before its first pass and the log is old enough to count as
  orphans (`EventualSyncForgetsTheLog`, `EarlySyncIsHarmlessIff`).
- Writers of one window can apply in any order (`WindowAppliesInAnyOrder`), replay goes by the log:
  the databases agree exactly if the last batch to touch each key does the same to it
  (`SameResultIff`, `SameLastIff`, `SwappedWritesDiffer`).
- Read-modify-write requests lock nothing: of two that overlap, one can be lost (`UpdateIsLost`).
- A write that fails locally after its object was stored comes back after a crash
  (`StrandedWriteReturns`).

## Model

| member | source | states |
|---|---|---|
| Bytes.BigEndianRoundTrip | pkg/bigtable/encoding.go:94-134 | reading back a big-endian length or timestamp of any width gives the number that was written |
| Bytes.BigEndianOrder | pkg/bigtable/encoding.go:94-134 | byte order of fixed-width big-endian integers is numeric order |
| Encoding.InvertedTimestampExact | pkg/bigtable/encoding.go:30-42 | despite int64 wrap-around the inverted timestamp is exactly MaxInt64 - ts, and inverting twice is the identity, on all int64 |
| Encoding.TimestampFromInvertedExact | pkg/bigtable/encoding.go:30-42 | every uint64 is the inverse of exactly one int64 timestamp |
| Encoding.RowPrefixOrder | pkg/bigtable/encoding.go:44-88 | keys of different rows are ordered as the raw row keys, whatever follows the prefix |
| Encoding.RowPrefixFree | pkg/bigtable/encoding.go:44-88 | a row prefix is a prefix of a key only of the same row, so prefix plus rest splits in one way |
| Encoding.FieldOrder | pkg/bigtable/encoding.go:94-122 | length-prefixed fields order by (length, bytes), then by what follows |
| Encoding.FieldPrefixFree | pkg/bigtable/encoding.go:94-122 | no field is a proper beginning of another |
| Encoding.OrderEmbedding | pkg/bigtable/encoding.go:125-134 | byte order of keys is row, family by (length, bytes), qualifier by (length, bytes), timestamp descending; equal keys are equal cells |
| Encoding.CountNulls | pkg/bigtable/encoding.go:64-72 | the sizing pass counts the null bytes of the row key |
| Encoding.FillEscaped | pkg/bigtable/encoding.go:72-88 | the filling pass leaves the escaped row key in the buffer |
| Encoding.EncodeRowPrefixEscaped | pkg/bigtable/encoding.go:64-88 | the two passes produce the row prefix for every row key |
| Encoding.EncodeRowPrefix | pkg/bigtable/encoding.go:51-62 | the fast path for keys without null bytes gives the same prefix as the escaping path |
| Decoding.Decoded | pkg/bigtable/encoding.go:230-235 | reference decoder: succeeds on exactly the byte strings that encode a cell, and encoding its result gives the string back |
| Decoding.DecodeEncode | pkg/bigtable/encoding.go:125-134 | decoding an encoded cell gives that cell |
| Decoding.ScanRow | pkg/bigtable/encoding.go:235-261 | the scan loop finds the terminator exactly in keys that have one, and counts the escapes before it |
| Decoding.Unescape | pkg/bigtable/encoding.go:263-277 | the unescaping loop undoes the escaping |
| Decoding.ParseTail | pkg/bigtable/encoding.go:279-313 | what passes the length and separator tests re-encodes to the bytes read, and nothing else is a tail |
| Decoding.DecodeCellKey | pkg/bigtable/encoding.go:235-313 | equals the reference decoder on every byte string |
| Decoding.CellDecoder.Decode | pkg/bigtable/encoding.go:149-226 | whatever earlier calls left in its buffers, it returns what the reference decoder returns |
| Bounds.RowBoundsExact | pkg/bigtable/encoding.go:319-324 | a key lies in a row's bounds iff the cell is in the row and its family has at most 254 bytes |
| Bounds.FamilyBoundsExact | pkg/bigtable/encoding.go:327-332 | a key lies in a family's bounds iff the cell is in that family of that row and its qualifier is shorter than 65280 bytes |
| Bounds.ColumnPrefixExact | pkg/bigtable/encoding.go:400-405 | a key starts with a column prefix iff the cell is in the column, and the rest is its timestamp |
| Bounds.ColumnBoundsExact | pkg/bigtable/encoding.go:335-341 | a key lies in a column's bounds iff the cell is in the column and its timestamp is at least -2^63 + 2^56 |
| Bounds.TimestampRangeExact | pkg/bigtable/encoding.go:357-381 | for all int64 bounds the range holds exactly the column's cells with start <= ts < end, except the cell at MinInt64 |
| Bounds.RowRangeExact | pkg/bigtable/readrows.go:191-213 | open, closed and missing ends of a row range mean what they say, up to cells with 255-byte families at an open start or a closed end |
| Bounds.RowRangeBoundsMeanRows | pkg/bigtable/readrows.go:191-213 | a range means its rows for every possible cell iff no such end can be met |
| Bounds.RowKeyBoundsExact | pkg/bigtable/encoding.go:385-388 | a point read of a row reaches exactly its cells whose family has at most 254 bytes |
| Table.EncodeTable | pkg/bigtable/encoding.go:125-134 | one entry per cell, under the cell's key, and nothing else |
| Table.EncodingIsUnique | pkg/bigtable/encoding.go:125-134 | a map that agrees with a table cell by cell is the table's encoding |
| Table.DeleteRangeRemoves | pkg/bigtable/mutate.go:271-298 | a range deletion whose range holds exactly the keys of some cells removes exactly those cells |
| Table.SetWrites | pkg/bigtable/mutate.go:256-269 | a set on a cell's key writes that cell of the table |
| Mutate.RejectionSticks | pkg/bigtable/mutate.go:221-229 | the first rejected mutation ends the list |
| Mutate.AcceptedIff | pkg/bigtable/mutate.go:221-269 | a list is accepted iff no mutation is refused: a SetCell with an over-long name or an unknown mutation as an invalid argument, AddToCell and MergeToCell as unimplemented; else the first refused one gives the status, after one operation for each before it |
| Mutate.ApplyMutationsToBatch | pkg/bigtable/mutate.go:221-254 | appends the operations of the mutations before the first rejected one and returns its status |
| Mutate.DeletionExact | pkg/bigtable/mutate.go:271-298 | the deleted key range holds exactly the targeted cells that the bounds do not spare; if a name does not fit, exactly the cells under what is left of the prefix |
| Mutate.StepSimulation | pkg/bigtable/mutate.go:231-298 | one operation on the encoded map is the performed mutation on the table |
| Mutate.MutationSimulation | pkg/bigtable/mutate.go:221-298 | for every accepted mutation list and table, the batch on the encoded map is the encoding of the table after the performed mutations in order |
| Mutate.PerformedIsMutated | pkg/bigtable/mutate.go:271-298 | a performed mutation is the abstract one iff the table holds no targeted cell outside the bounds, or, for names that do not fit, no cell under the stray prefix |
| Mutate.NarrowTablesMutate | pkg/bigtable/mutate.go:256-298 | with families up to 254 bytes, qualifiers below 65280 and ordinary timestamps, lists perform the abstract mutations and keep the table so |
| Mutate.OtherRowsUntouched | pkg/bigtable/mutate.go:221-298 | if the names of deletions fit, every cell of every other row stays as it was |
| Mutate.SetCellLands | pkg/bigtable/mutate.go:256-269 | after an accepted list that ends in a SetCell, the encoded table has its value under the given timestamp, or under the server's time for -1, and is otherwise as the list before it left it |
| Mutate.TimeRangeDeletes | pkg/bigtable/mutate.go:271-287 | after an accepted list that ends in the deletion of a time range, exactly the column's cells with start <= ts < end are gone, ts < now for an end of 0, but for a cell at MinInt64 |
| Mutate.OpenEndIsInfinityIff | pkg/bigtable/mutate.go:279-283 | such a deletion without an end removes all cells from its start on iff the column has none from now on, nor one at MinInt64 |
| StrayDeletions.FamilyDeletionIsLocal | pkg/bigtable/mutate.go:289-293 | a family deletion stays within its row iff the family has at most 255 bytes |
| StrayDeletions.OverlongFamilyDeletion | pkg/bigtable/mutate.go:289-293 | with a longer family it removes exactly the cells of rows that do not start with 0xFF |
| StrayDeletions.ColumnDeletionIsLocal | pkg/bigtable/mutate.go:271-287 | a column deletion without time range stays within its row iff the qualifier fits and either the family fits or what the qualifier names as a key is this row or no cell at all |
| StrayDeletions.OverlongQualifierDeletion | pkg/bigtable/mutate.go:271-287 | with a longer qualifier it removes exactly the cells of rows that do not start with 0xFF |
| StrayDeletions.OverlongQualifierRange | pkg/bigtable/mutate.go:276-285 | with a longer qualifier and a time range it removes the cells whose first eight key bytes, read as a number, lie between the inverted bounds |
| StrayDeletions.TargetMeans | pkg/bigtable/encoding.go:94-122 | a stray prefix names a row if it is an escaped row key and a null byte, part of a row if it goes beyond a row prefix, nothing if a null byte is followed by neither 0x00 nor 0xFF before |
| StrayDeletions.OverlongFamilyInColumn | pkg/bigtable/mutate.go:271-287 | with an over-long family a column deletion removes exactly the cells that the stray prefix names, whichever row was given |
| StrayDeletions.ShortQualifiersStray | pkg/bigtable/mutate.go:271-287 | for qualifiers up to 254 bytes that is nothing, and for the empty one the empty row's cells of the empty family |
| Mutate.TableServer.MutateRow | pkg/bigtable/mutate.go:19-46 | accepts exactly a non-empty key with a non-empty list without a refused mutation; a failing list or batch changes nothing, otherwise the batch is applied |
| ReadModifyWrite.IncrementExact | pkg/bigtable/readmodifywrite.go:56-73 | an increment succeeds iff the value is empty or an 8-byte integer up to MaxInt64 and the unwrapped sum is in [0, MaxInt64]; the stored bytes decode to that sum |
| ReadModifyWrite.RuleExact | pkg/bigtable/readmodifywrite.go:53-76 | an append is the old value and then the suffix; an increment fails with FailedPrecondition iff the old value is no integer up to MaxInt64, with OutOfRange iff the sum is not; other rules are invalid arguments |
| ReadModifyWrite.ReadIsLatest | pkg/bigtable/readmodifywrite.go:116-139 | the iterator read returns the value of the column's newest cell, or the empty value |
| ReadModifyWrite.ReadModifyWriteRow | pkg/bigtable/readmodifywrite.go:19-112 | the rule loop computes the rules in order over one view; any failure leaves the table unchanged |
| ReadModifyWrite.AppendStores | pkg/bigtable/readmodifywrite.go:43-91 | on a stored table, a request of one append answers with the newest value and then the suffix, and stores that under its time, nothing else |
| ReadModifyWrite.RulesRunByColumn | pkg/bigtable/readmodifywrite.go:43-91 | for every table and rule list, the request succeeds iff the rules of every column do, and table and response hold each column's result, the rest unchanged; in a column with a newer cell each rule works on that cell's value |
| ReadModifyWrite.FrozenColumn | pkg/bigtable/readmodifywrite.go:47-50 | in such a column the request succeeds iff every rule succeeds on the newer cell's value alone, and the last one decides |
| ReadModifyWrite.RulesAreFolds | pkg/bigtable/readmodifywrite.go:43-91 | if no column with a newer cell is addressed twice, results and failures are those of the left fold of each column's rules |
| ReadModifyWrite.FoldsIff | pkg/bigtable/readmodifywrite.go:43-91 | a list of columns gets the folds, whatever the actions, iff none of its columns with a newer cell occurs twice |
| ReadModifyWrite.RowsShareAColumnIff | pkg/bigtable/readmodifywrite.go:78-78 | two rows read and write under the same prefix iff the family or the qualifier is too long |
| ReadModifyWrite.OtherRowReads | pkg/bigtable/readmodifywrite.go:43-91 | after a rule with such names has run for one row, a later request on any row reads what it wrote, or, if another entry under the names comes first, what it read itself |
| ReadModifyWrite.UpdateIsLost | pkg/bigtable/readmodifywrite.go:33-91 | two requests that both read before either applies write the same value, and the second is lost |
| ReadModifyWrite.AppendsAreNotFolded | pkg/bigtable/readmodifywrite.go:116-139 | two appends to a column with a newer cell never answer the fold |
| FilterMeaning.ChainLaw | pkg/bigtable/filter.go:156-163 | a chain's later stages see exactly the cells the first one keeps |
| FilterMeaning.CascadeLaw | pkg/bigtable/filter.go:196-211 | an interleave gives the verdicts of the cascade of its branches, with repeated identities dropped |
| FilterMeaning.CascadeSplits | pkg/bigtable/filter.go:196-211 | in the cascade, later branches see exactly the cells the first one rejects |
| FilterMeaning.ConditionLaw | pkg/bigtable/filter.go:253-264 | a condition splits the row by its predicate and hands each part to one branch |
| FilterMeaning.OffsetLaw | pkg/bigtable/filter.go:411-421 | the offset counter, from any state, rejects exactly the first cells |
| FilterMeaning.LimitLaw | pkg/bigtable/filter.go:423-436 | the limit counter, from any state, keeps exactly the first cells |
| FilterMeaning.ColumnLimitLaw | pkg/bigtable/filter.go:438-456 | a cell passes iff fewer than n cells of its counting key came before it |
| FilterMeaning.EvaluatorMeansFilter | pkg/bigtable/filter.go:53-276 | for every filter tree and row, evaluating cell by cell gives the verdicts of the compositional meaning |
| FilterMeaning.ResetForgets | pkg/bigtable/filter.go:165-276 | whatever cells a tree has seen, reset brings it to the same state |
| FilterMeaning.BuiltIsReset | pkg/bigtable/filter.go:53-137 | a built tree is in reset state |
| FilterMeaning.NoStateLeaks | pkg/bigtable/filter.go:165-169 | after any cells and a reset, the next row is judged by the meaning of the filter alone |
| FilterMeaning.ChainComposes | pkg/bigtable/filter.go:156-163 | what a chain keeps is the composition of what its filters keep |
| FilterMeaning.LimitTakesOffsetDrops | pkg/bigtable/filter.go:411-436 | the limit takes and the offset drops the first n cells, for every int n |
| FilterMeaning.DistinctCellsNeverRepeat | pkg/bigtable/filter.go:178-211 | in a row without repeated identities the repetition filter of an interleave drops nothing |
| FilterLeaves.RegexKeeps | pkg/bigtable/filter.go:292-311 | each regular-expression filter keeps exactly the cells whose own field matches |
| FilterLeaves.RangesKeep | pkg/bigtable/filter.go:345-405 | column and value ranges keep what lies between their ends in byte order, where an empty end is none; timestamp ranges keep start <= ts < end, where only a positive bound is one |
| FilterLeaves.RangeIsDocumentedIff | proto/google/bigtable/v2/data.proto:236-256 | that is the documented range for every string iff neither the open start nor an end is the empty string |
| FilterLeaves.TimestampsAreDocumentedIff | proto/google/bigtable/v2/data.proto:227-233 | and the documented range of timestamps for all int64 iff the start is positive or MinInt64 and the end is not negative |
| FilterLeaves.BitmaskKeeps | pkg/bigtable/filter.go:551-567 | a bitmask keeps the values that have every bit of the mask and only zeros behind it |
| FilterLeaves.BitmaskIsDocumentedIff | proto/google/bigtable/v2/data.proto:259-265 | on a value that is the documented test, which wants the lengths equal, iff the value is not such a one with zeros behind the mask |
| FilterLeaves.EveryMaskTakesPadding | pkg/bigtable/filter.go:560-566 | every mask has such a value |
| FilterLeaves.AllOrNothing | pkg/bigtable/filter.go:280-288 | block drops every cell; pass, strip, label and unknown filters keep all |
| FilterLeaves.InterleaveKeepsFirst | pkg/bigtable/filter.go:196-211 | an interleave keeps a cell that its cascade accepts unless an accepted one before it has the same family, qualifier and timestamp |
| FilterLeaves.BuiltTree | pkg/bigtable/filter.go:53-137 | a filter is refused iff it holds a malformed expression anywhere; values are emptied iff it holds a strip-value anywhere, in whatever branch |
| StatelessFilters.PassesCellByCell | pkg/bigtable/filter.go:156-264 | in a row of distinct cells a filter tree without counters judges each cell on its own: a chain by all of its filters, an interleave by any, a condition by one branch |
| StatelessFilters.StatelessKeeps | pkg/bigtable/filter.go:156-264 | so what it keeps of the row is the cells with that verdict, in order |
| StatelessFilters.VisitsAreOneEach | pkg/bigtable/readrows.go:124-150 | the cells of a scanned row are distinct |
| StatelessFilters.CountersShareARow | pkg/bigtable/filter.go:196-211 | with counters that fails: two branches that each keep the first cell of a row together keep its first two |
| DocumentedFilters.ConditionIsDocumentedIff | proto/google/bigtable/v2/data.proto:347-360 | conditions with both branches are the documented ones on a row, whatever the branches, iff the predicate keeps the whole row or nothing of it |
| DocumentedFilters.OneBranchJudges | pkg/bigtable/filter.go:253-264 | in these cases one branch judges the whole row |
| DocumentedFilters.MissingBranchPasses | proto/google/bigtable/v2/data.proto:352-354 | a missing true filter outputs the row where nothing is documented |
| DocumentedFilters.InterleaveIsDocumentedIff | proto/google/bigtable/v2/data.proto:310-337 | for filters without counters the output is the documented pool of all branches iff no cell of the row passes two of them |
| ColumnLimit.KeysCollideIff | pkg/bigtable/filter.go:443-454 | columns of two different families can share a counting key iff one family is the other, a null byte and anything |
| ColumnLimit.LimitIsExact | pkg/bigtable/filter.go:438-456 | in rows where no family extends another by a null byte, a cell passes iff fewer than n cells of its own column precede it |
| ColumnLimit.ExtensionDropsACell | pkg/bigtable/filter.go:443-454 | for every such pair of families there is a row, in key order, of two cells in different columns of which a limit of one keeps only the first |
| ColumnLimit.ColumnLimitExactIff | pkg/bigtable/filter.go:438-456 | over a set of families the limit counts columns, in all rows and for all limits, iff no family extends another by a null byte |
| FilterTree.BuildEvaluator | pkg/bigtable/filter.go:53-137 | builds fresh, pairwise separate nodes that represent the filter's evaluator, and fails exactly on malformed regular expressions |
| FilterTree.BuildEvaluators | pkg/bigtable/filter.go:144-194 | the build loops of chain and interleave |
| FilterTree.BuildCondition | pkg/bigtable/filter.go:230-251 | an absent predicate passes everything, absent branches stay absent |
| FilterTree.Evaluate | pkg/bigtable/filter.go:156-454 | updating the nodes in place is one step of the evaluator, with the same verdict, and touches no other tree |
| FilterTree.EvaluateChain | pkg/bigtable/filter.go:156-163 | the loop over the stages stops at the first rejection and leaves the later ones untouched |
| FilterTree.EvaluateCascade | pkg/bigtable/filter.go:196-211 | the loop over the branches stops at the first acceptance and leaves the later ones untouched |
| FilterTree.EvaluateCondition | pkg/bigtable/filter.go:253-264 | predicate first, then one branch |
| FilterTree.ResetTree | pkg/bigtable/filter.go:165-276 | resetting the nodes in place is the reset of the evaluator |
| FilterTree.EvaluateRows | pkg/bigtable/filter.go:596-624 | one tree, reset before each row, gives on every row the filter's meaning on that row alone |
| Chunks.PiecesJoin | pkg/bigtable/readrows.go:220-246 | the pieces of a value have at most 64 KiB, all but the last exactly that, and concatenate to the value |
| Chunks.AppendCellChunks | pkg/bigtable/readrows.go:220-246 | the splitting loop appends one chunk per piece, the name on the first, the size hint on all but the last |
| Chunks.CellChunksAre | pkg/bigtable/readrows.go:220-267 | the first chunk has the row key, the timestamp, and family and qualifier unless empty; the others no name; all but the last are full and give the total size, up to MaxInt32; none is committed |
| Chunks.StartedStream | pkg/bigtable/readrows.go:88-112 | if every row was started, marking the last buffered chunk at the end of each row is committing each row on its own |
| Chunks.CommitKeepsFinal | pkg/bigtable/readrows.go:88-96 | a commit mark never reaches a chunk that has left the buffer |
| Chunks.CommitMarks | pkg/bigtable/readrows.go:84-187 | in the stream of a whole scan only the last chunk of a row is ever committed, and it is iff the row's last cell left something in the buffer |
| Chunks.FullBufferLosesTheCommit | pkg/bigtable/readrows.go:168-173 | a row of exactly 100 one-chunk cells carries no commit mark at all |
| Chunks.StreamGrows | pkg/bigtable/readrows.go:88-112 | later rows never change the chunks of earlier ones |
| Chunks.FinalStays | pkg/bigtable/readrows.go:88-112 | neither the rest of a row nor later rows change the chunks that have left the buffer |
| Chunks.Sender.Append | pkg/bigtable/readrows.go:166-173 | delivered plus buffered grows by the cell's chunks; a failed Send leaves delivered exactly what had left the buffer before |
| Chunks.Sender.Flush | pkg/bigtable/readrows.go:98-112 | the buffer is delivered whole or not at all, and is empty afterwards |
| Chunks.Sender.CommitLast | pkg/bigtable/readrows.go:88-96 | marks the last buffered chunk, if there is one, and nothing else |
| Scan.ScanListsTable | pkg/bigtable/readrows.go:116-133 | a range of a stored table lists exactly the table's cells in the range with their values, in cell order, or backwards |
| Scan.ScansAreContiguous | pkg/bigtable/readrows.go:129-150 | cells of one row lie next to each other in a scan |
| Scan.OneVisitPerRow | pkg/bigtable/readrows.go:129-150 | grouping by row boundary visits every row of a range once |
| Scan.GroupConcat | pkg/bigtable/readrows.go:129-150 | the visits concatenate to the scanned cells |
| Scan.VisitsAreRows | pkg/bigtable/readrows.go:116-150 | a scan of a range of a stored table visits exactly the rows with a cell in the range, each once, with exactly its cells in the range, their values, in order |
| Scan.VisitsOfRowRange | pkg/bigtable/readrows.go:191-213 | a row range visits exactly the rows with a cell that it meets, and each visit holds exactly those cells |
| ScanRequest.RequestReads | pkg/bigtable/readrows.go:59-75 | a request on a stored table reads its named rows and then its ranges, in the order given, or everything if it names neither: of each exactly the stored cells, with their values, in key order |
| ScanRequest.RequestReadsIff | pkg/bigtable/readrows.go:59-75 | a stored cell is visited iff the row set is empty, or names its row and the family has at most 254 bytes, or has a range that meets it |
| Scan.StartsNamedIff | pkg/bigtable/readrows.go:126-136 | the first cell of a range has a non-empty row key iff the range has no cell of the empty row, or is reversed and has another row |
| Emission.StripIsStable | pkg/bigtable/filter.go:628-656 | the strip-value flag computed at build time stays right while the tree evaluates |
| Emission.EmitSnoc | pkg/bigtable/readrows.go:158-166 | one more cell of a visit adds itself, stripped or not, iff the evaluator passes it in the state the visit left |
| Emission.EvalResets | pkg/bigtable/readrows.go:145-147 | whatever rows an evaluator has judged, started or not, a reset brings it back to the built state |
| Emission.EmitIsMeaning | pkg/bigtable/readrows.go:145-166 | from reset state a row emits the filter's meaning on it |
| ReadRows.Scanner.StartRow | pkg/bigtable/readrows.go:135-150 | at a row boundary a started row is committed, the new one counted, and the filter starts from reset state unless the limit is exceeded |
| ReadRows.Scanner.OnCell | pkg/bigtable/readrows.go:130-174 | each cell extends the current visit or starts the next; a leading cell of the empty row begins a visit that is not started |
| ReadRows.Scanner.EmitCell | pkg/bigtable/readrows.go:152-173 | the output stays that of all visits so far; if a Send fails, what is delivered had left the buffer before the cell |
| ReadRows.Scanner.EndRange | pkg/bigtable/readrows.go:176-180 | the end of a range commits the last row if it was started, once |
| ReadRows.Scanner.ScanRange | pkg/bigtable/readrows.go:124-180 | the inner loop reads the visits of one range, or stops at the limit or at a failed Send |
| ReadRows.ScanAll | pkg/bigtable/readrows.go:116-185 | the outer loop reads the visits up to the rows_limit-th started row over all ranges, all of them if the limit is 0 |
| ReadRows.ReadRowsRequest | pkg/bigtable/readrows.go:39-187 | for every database and request, what is delivered is the chunk stream of the limited visits, each judged from the state it begins in; a prefix of it if a Send failed |
| ScanMeaning.StartedMeansRows | pkg/bigtable/readrows.go:116-187 | if every visit was started, that is the stream of the first rows, each filtered on its own and committed |
| ScanMeaning.NotStartedDiffers | pkg/bigtable/readrows.go:135-150 | if some visit was not, a filter that keeps one cell per row shows the difference |
| ScanMeaning.ScanMeansRowsIff | pkg/bigtable/readrows.go:116-187 | for all filters and limits a scan is the filter's meaning on each row alone iff no range starts with a cell of the empty row |
| ReadRows.DeliveredIsPrefix | pkg/bigtable/readrows.go:168-173 | what a failed Send leaves delivered is a prefix of the complete stream |
| Client.CellRead | pkg/bigtable/readrows.go:220-267 | whatever a client has read before, a cell's chunks give it one more cell with the value joined |
| Client.ClientHears | pkg/bigtable/bigtablepb/bigtable.pb.go:2110-2150 | a client that reads the stream of any scan as documented gets its cells in order, an empty row key, family or qualifier taken from the cell before |
| Client.ClientReadsIff | pkg/bigtable/bigtablepb/bigtable.pb.go:2110-2126 | it gets the cells as they are iff none has an empty row key, family or qualifier |
| Client.RequestRoundTrip | pkg/bigtable/readrows.go:39-187 | from a stored table, a request without filter and limit gives a client the cells asked for, in order, iff none of those has an empty name |
| CheckAndMutate.HasMatch | pkg/bigtable/filter.go:596-612 | stopping at the first match answers whether the filter keeps any cell of the row |
| CheckAndMutate.RowHasCells | pkg/bigtable/mutate.go:197-219 | the predicate is the filter's meaning on the row; without a usable filter, whether the row has an entry |
| CheckAndMutate.RowCellsExact | pkg/bigtable/mutate.go:197-219 | on a stored table the predicate looks at exactly the row's cells whose family has at most 254 bytes, with their values, in key order |
| CheckAndMutate.MatchesMeans | pkg/bigtable/mutate.go:197-219 | so it is whether the filter keeps one of them, or, without a usable filter, whether there is one |
| CheckAndMutate.CheckAndMutateRow | pkg/bigtable/mutate.go:138-194 | exactly the mutation list that the predicate selects is applied; an error changes nothing |
| Listing.Last | pkg/walcloud/manager.go:325-340 | the greatest listed number, or 0 for an empty log |
| Listing.Listed | pkg/walcloud/manager.go:325-340 | exactly the stored numbers, strictly ascending |
| Listing.RestartsAboveIff | pkg/walcloud/manager.go:71-88 | NewManager starts above MaxWALSeq iff MaxWALSeq is 0 or an object with at least that number survives |
| Wal.LittleEndianRoundTrip | pkg/walcloud/manager.go:253-264 | a batch count reads back as written |
| Wal.MergedIsOneBatch | pkg/walcloud/manager.go:269-309 | a merged object is one batch: the first header's sequence number, the operations of all segments in order, the sum of the counts modulo 2^32 |
| Wal.MergedCountBytes | pkg/walcloud/manager.go:253-264 | bytes 8 to 12 of a merged batch, least significant first, are the sum of those of its segments modulo 2^32 |
| Wal.MergedGrows | pkg/walcloud/manager.go:290-309 | one more segment keeps the first eight bytes, puts its operations at the end and adds its count bytes |
| Wal.MeasureSegments | pkg/walcloud/manager.go:277-287 | the measuring loop computes the merged size and whether every segment has a header |
| Wal.CountSegments | pkg/walcloud/manager.go:299-305 | the counts are summed in uint32 arithmetic |
| Wal.FillMerged | pkg/walcloud/manager.go:297-305 | the copy loop fills the buffer with the first header and all bodies |
| Wal.MergeBatchSegments | pkg/walcloud/manager.go:269-309 | the loops produce the merged batch, or the raw concatenation if a segment has no header; the four count bytes, least significant first, are the sum of the segments' modulo 2^32 |
| Wal.SetBatchCount | pkg/walcloud/manager.go:262-264 | bytes 8 to 12 become the count, least significant byte first, nothing else changes |
| Wal.Manager.constructor | pkg/walcloud/manager.go:71-88 | no open window; the first number is one past the last listed object, or 1 |
| Wal.Manager.WriteRecord | pkg/walcloud/manager.go:188-207 | a record and its waiter join the open window, or a new one under the next number; a closed manager refuses |
| Wal.Manager.AllocateSequence | pkg/walcloud/manager.go:176-185 | the direct path takes the next number and leaves the window alone |
| Wal.Manager.TakeWindow | pkg/walcloud/manager.go:117-129 | the whole window is handed out and none is left |
| Wal.Manager.Close | pkg/walcloud/manager.go:98-105 | the critical section: closed, timer stopped; an open window stays |
| WalProtocol.StepKeepsInv | pkg/walcloud/manager.go:113-248 | every event of the manager keeps the protocol's invariants |
| WalProtocol.RunInv | pkg/walcloud/manager.go:113-248 | the invariants hold in every state of every run |
| WalProtocol.Conservation | pkg/walcloud/manager.go:172-248 | each accepted record is in exactly one of the open window, one flight, and one settled batch |
| WalProtocol.BatchIsNumbered | pkg/walcloud/manager.go:188-207 | the batch of a number holds exactly the records that were given that number, in order |
| WalProtocol.AcksAreHonest | pkg/walcloud/manager.go:137-148 | a waiter is notified at most once, and with success only when the object of its returned number was stored as the merge of exactly the records with that number, its own at its place |
| WalProtocol.NoPathIsPutTwice | pkg/walcloud/manager.go:172-248 | no number is Put twice by one manager, and none that existed before it |
| WalProtocol.StepFresh | pkg/walcloud/manager.go:172-248 | a running or coming Put never meets an existing object |
| WalProtocol.StepHeard | pkg/walcloud/manager.go:137-148 | every waiter that was passed has been notified with the outcome of its batch, all of them once the batch is settled |
| WalProtocol.FlushBarrier | pkg/walcloud/manager.go:113-149 | when Flush returns, every record taken before it cut the window is settled, whatever timers fired in between |
| WalProtocol.CloseBarrier | pkg/walcloud/manager.go:95-107 | when Close may return in batching mode no Put is running, and a record that is not settled or being notified by Flush is still in the window |
| WalProtocol.CloseIsFinal | pkg/walcloud/manager.go:95-107 | after Close no record is ever taken |
| Progress.EveryWaiterCanHear | pkg/walcloud/manager.go:113-248 | from every state of every run, whichever Puts fail, finishing what was begun ends with no window, no Put, no Flush, and every waiter told |
| WalProtocol.BatchingIsInvisible | pkg/walcloud/manager.go:188-340 | before any GC, reading the objects from the manager's first number on in ascending order yields the operations of the durable records, each once, in the order they were accepted; older objects are untouched |
| Durability.StepKeepsInv | pkg/engine/engine.go:395-438 | every step of writers, Sync, GC, crash and reopen keeps the durability invariants |
| Durability.RunInv | pkg/engine/engine.go:686-841 | the invariants hold in every state of every run |
| Durability.AckedIsDurable | pkg/engine/engine.go:686-841 | in every run, an acknowledged batch is in the manifest's checkpoint or in a stored object above MaxWALSeq that is the merge of the batches it holds, and it is in the local database |
| Progress.EveryWriterCanReturn | pkg/engine/engine.go:395-438 | from every state of every run, whichever Puts fail and without another write or GC step, all writers can return and Sync be over; every batch whose writer is told of success is acknowledged, and all acknowledged ones stay covered |
| Durability.QuietRunsAreRuns | pkg/engine/engine.go:686-841 | running Sync with no write in flight meets the conditions on checkpoints and GC |
| Durability.CaptureIsSafeIff | pkg/engine/engine.go:702-729 | a checkpoint is safe iff it holds every batch numbered up to the captured maximum that is acknowledged or not yet refused |
| Durability.DeleteIsSafeIff | pkg/walcloud/manager.go:359-387 | deleting an object is safe iff it is numbered up to MaxWALSeq, or the manifest's checkpoint has its batches that are acknowledged or not yet refused |
| Durability.CalmIsExact | pkg/engine/engine.go:686-841 | every step of the protocol is safe for coverage, whatever follows under the same conditions, iff it meets its condition |
| Durability.ReopenRestores | pkg/engine/engine.go:264-329 | a strong-mode open at any point brings every acknowledged batch back |
| Durability.ReopenIsSafeIff | pkg/walcloud/manager.go:71-88 | coverage survives everything after a reopen iff MaxWALSeq is 0 or an object with at least that number survived |
| Durability.RacingSyncLoses | pkg/engine/engine.go:702-729 | from every idle state, a write after the memtable flush can be acknowledged and then covered by no checkpoint and no object above MaxWALSeq |
| WindowOrder.SameResultIff | pkg/engine/engine.go:412-438 | two orders of batches give the same database from every start iff they agree on the last effect on each key |
| Durability.WindowAppliesInAnyOrder | pkg/engine/engine.go:412-438 | the writers of a stored window that have not applied yet can do so in every order |
| WindowOrder.LogOrderIsEnough | pkg/engine/engine.go:412-438 | if batches with a common key were applied in log order, the live database is what replay makes of the log |
| WindowOrder.SameLastIff | pkg/engine/engine.go:412-438 | for batches that touch given keys, an order gives what replay gives, whatever they do to the keys, iff it ends on each key with the batch the log ends with |
| WindowOrder.SwappedWritesDiffer | pkg/engine/engine.go:412-438 | two writes to one key applied against the log order leave another database than replay |
| Recovery.UploadsStore | pkg/engine/engine.go:747-784 | for a checkpoint of Pebble's files, whose numbered ones never change under their names, after the upload loop every file is stored with the checkpoint's bytes, and earlier uploads are still there |
| Recovery.MutableIsNotNumbered | pkg/engine/engine.go:731-737 | among the files of a checkpoint exactly those whose names do not start with a digit are taken for mutable |
| Recovery.IncrementalUpload | pkg/engine/engine.go:747-784 | the upload loop skips exactly the numbered files that are stored already, stores the bytes of the others, and touches nothing else |
| Recovery.DownloadIsCheckpoint | pkg/engine/engine.go:284-302 | downloading the files of the manifest gives back the checkpoint directory |
| Recovery.SecondPassIsIdle | pkg/engine/engine.go:331-366 | a second replay pass changes nothing |
| Recovery.RetriedPass | pkg/engine/engine.go:331-366 | a pass that failed at any object and a later complete pass are one pass |
| Recovery.WriteHidesTheLog | pkg/engine/engine.go:342-345 | after a write, a pass applies nothing of the older log |
| Recovery.EarlyWriteIsHarmlessIff | pkg/engine/engine.go:368-390 | eventual open, write and pass reach what strong open and write reach, for every write, iff replay would have changed nothing |
| Recovery.HealsIffNothingAbove | pkg/engine/engine.go:368-390 | whatever the objects hold, that is so iff no object is numbered above MaxWALSeq |
| Recovery.EventualWriteForgetsTheLog | pkg/engine/engine.go:368-390 | eventual open, write and Sync leave the old checkpoint and the write only |
| Recovery.EventualSyncForgetsTheLog | pkg/walcloud/manager.go:373-384 | an eventual open and a Sync before the first pass leave the old checkpoint only, if GC takes the log as orphans |
| Recovery.EarlySyncIsHarmlessIff | pkg/walcloud/manager.go:373-384 | whatever the objects hold, such a Sync loses nothing iff no object is numbered above MaxWALSeq |
| Recovery.SyncStores | pkg/engine/engine.go:739-821 | a Sync that wrote its manifest stored all its files; uploadedFiles and the manifest name exactly the checkpoint |
| Recovery.RunInv | pkg/engine/engine.go:264-841 | the recovery invariants hold after every sequence of writes, failed writes, Syncs, failed Syncs and reopens |
| Recovery.SyncIsWhole | pkg/engine/engine.go:747-821 | a Sync that wrote its manifest leaves exactly the checkpoint's bytes under the manifest's names, whatever an earlier one had torn |
| Recovery.FailedSyncTearsIff | pkg/engine/engine.go:747-821 | a Sync that failed before its manifest leaves the old checkpoint intact iff it deleted none of its files and had uploaded none under the same name with other bytes |
| Recovery.NeverTorn | pkg/engine/engine.go:686-841 | in every run, if no Sync has failed since the last one that wrote its manifest, the manifest's files are the checkpoint's |
| Recovery.RecoveryEquality | pkg/engine/engine.go:264-366 | the live database is the acknowledged batches applied in order, and, if no Sync has failed since the last one that wrote its manifest or the failed one left the checkpoint intact, so is what recovery would read back, wherever GC stopped |
| Recovery.UploadedFilesExist | pkg/engine/engine.go:739-821 | uploadedFiles never names a missing object, over successful and failed Syncs |
| Recovery.NotTorn | pkg/engine/engine.go:264-366 | with the invariants of a run, recovery from the checkpoint's own files reads back the live database |
| Recovery.StrandedWriteReturns | pkg/engine/engine.go:420-431 | a write whose local apply failed is not in the database and is in what recovery reads back |
| Recovery.ManifestFilesAreCheckpoint | pkg/engine/engine.go:747-821 | after a Sync each file in the manifest is stored with the checkpoint's bytes |
| Recovery.ReopenIsSafeIff | pkg/walcloud/manager.go:71-88 | after a reopen the next write is recovered, whatever it is, iff MaxWALSeq is 0 or an object with at least that number survives |
| Engine.Engine.Write | pkg/engine/engine.go:395-438 | log object first, then the local apply and maxWALSeq; a failed Put only uses up its number, a failed apply leaves the object |
| Engine.Engine.ReplayWALs | pkg/engine/engine.go:331-366 | a complete pass applies each object above the old maxWALSeq once, ascending, although the loop raises its own threshold; it fails iff an object above it cannot be read, with everything before it applied |
| Engine.Engine.UploadFiles | pkg/engine/engine.go:739-784 | the loop skips known non-mutable files, stores the others and rebuilds uploadedFiles |
| Engine.Engine.DeleteStale | pkg/engine/engine.go:786-798 | in any order, deletes exactly the earlier uploads that left the checkpoint and whose deletion does not fail |
| Engine.Engine.CollectGarbage | pkg/walcloud/manager.go:359-387 | deletes covered objects and orphans in ascending order up to where it stops, and counts them |
| Engine.Engine.ReplaceFiles | pkg/engine/engine.go:739-798 | uploads up to the failing file, then, if all succeeded, the stale deletions |
| Engine.Engine.Sync | pkg/engine/engine.go:686-841 | leaves the state of the matching Sync or failed Sync of the specification, for every failure point, also when the manifest Put reports an error after it was stored |
| Engine.Engine.DownloadFiles | pkg/engine/engine.go:284-302 | succeeds iff every named file is stored, and then uploadedFiles and the directory hold exactly those |
| Engine.Engine.Recover | pkg/engine/engine.go:264-329 | strong mode is the checkpoint plus one replay pass, eventual mode the checkpoint alone; fails iff a file is missing or a replayed object cannot be read |

## Left out

- Async WAL durability and local WAL files: writers of one window share a sequence number and hence one truncated local file.
- Crashes between the first change to a data file and the manifest Put: stale files are deleted and mutable ones overwritten before the manifest is written, so the old manifest may no longer open (`Torn` in `Recovery`).
- Durability.AckedIsDurable: for runs that are `Calm`; `CalmIsExact` and `RacingSyncLoses` show what happens otherwise. Batches are sets here; what their order does is in `WindowOrder`.
- Engine.Engine.Recover: recovery into an empty local directory; a directory with leftover Pebble files is not modelled.
- Durability.Reopened: a Put of a crashed process takes effect before the crash or never; one that lands after the next manager has listed the log is not modelled.
- Recovery.RecoveryEquality: writes and Syncs one at a time, and a failed write leaves no object; with an object it comes back (`StrandedWriteReturns`).
- WalProtocol.FlushBarrier: for the batching mode; without batching there is no window, and Flush does not wait for direct writers.
- WalProtocol.BatchingIsInvisible: for records that have a batch header; shorter ones are concatenated raw (`Wal.MergeBatchSegments`). Decoding a batch body into operations is Pebble's and is not modelled, so `Recovery` takes the operations of an object as given.
- Wal.CountSegments: the counting of mergeBatchSegments is a loop of its own here; in the code it shares the copy loop.
- Table requests are atomic here, as their documentation says (`Mutate`, `ReadModifyWrite`, `CheckAndMutate`). In the code only CheckAndMutateRow takes a row lock, and only against itself; `UpdateIsLost` shows one consequence, other overlaps are not modelled.
- Sequence numbers do not wrap at 2^64, and WAL paths, their zero padding and their parsing are numbers.
- Manifest history, its pruning, file sizes and checksums, and the reading of manifests in the old format.
- Cold-miss recovery, eviction, metrics, health, error channels, contexts and timeouts.
- ReadRows.ReadRowsRequest: `last_scanned_row_key` and failing iterators are not modelled.
- ReadRows.Scanner.OnCell: keeps the evaluator as a value; `FilterTree` proves that the objects in the heap behave as that value.
- Continuation chunks alias a reused value buffer in the code; here values are immutable.
- row_sample filters, and the matching of regular expressions, which are arbitrary predicates; so whether an expression has to match the whole field is not modelled.
- Client.ClientHears: the client reads cells only; what it does at commit marks, or without one, is not modelled (`Chunks.CommitMarks` says where they are).
- DocumentedFilters.InterleaveIsDocumentedIff: for filters without counters; with counters only `CountersShareARow` is stated.
- Progress.EveryWriterCanReturn: that a state of rest can be reached, not that a scheduler gets there; a Put that fails leaves no object in these continuations.
- Labels of apply_label, which ReadRows does not emit, and the unused row processor.
- StrayDeletions.OverlongFamilyInColumn: for deletions without a time range; with one, the reached cells are stated through key bytes only (`Mutate.DeletionExact`, `OverlongQualifierRange`).
- StrayDeletions.ColumnDeletionIsLocal: for deletions without a time range; with one, only names that fit are known to stay in their row (`Mutate.OtherRowsUntouched`).
- ReadModifyWrite.RulesRunByColumn: for names that fit the key layout; for others only `RowsShareAColumnIff` and `OtherRowReads` are stated.
- MutateRows and its per-entry statuses: when one entry fails the batch is not applied, yet the others report success.
- SampleRowKeys, session dispatch, the gRPC server, generated protobuf code, the GCS and local stores, and the command-line programs.
