# A verified model of LevelDB and nanopb as vendored by myBowfolio

The app under `myBowfolio/` stores its data through Firebase, whose client keeps a local cache in
LevelDB and talks in Protocol Buffers; the hard logic of the repository is in the two vendored libraries
that do this, the storage engine (`myBowfolio/Pods/leveldb-library`) and the codec
(`myBowfolio/Pods/nanopb`). This project models both in Dafny and proves what they are for: whatever has
been written to the engine can be read back, at every snapshot, after any interleaving of flushes and
compactions, through point lookups and through iterators, and after a crash; its files and its in-memory
structures hold what was put into them; and an encoded message is restored by decoding it.

`dafny verify dfyconfig.toml` checks everything.

## How the model is built

Everything refines one abstract store, the set of entries ever written; a read of a user key at sequence
`s` returns the newest entry at or below `s`, or nothing if that entry is a deletion (`Store`).

| modules | what they model |
|---|---|
| `Keys`, `Store` | internal keys and their comparator; the meaning of a read |
| `Versions` | tables, levels, the invariant of a version, point lookup |
| `Selection`, `Rounds` | choosing the inputs of a compaction, with its fixpoints; how automatic choices take turns |
| `Cuts`, `Compactions`, `CompactionReads` | where output tables end; the keep/drop loop with its monotone pointers; which reads it preserves |
| `Builders`, `Installs`, `Flushes` | applying edits to a version; installing a compaction or a flushed memtable |
| `Lsm` | the engine as a state machine; reads in every run |
| `Mergers`, `Background`, `DbIters`, `Iterators` | the merging iterator, a whole compaction driven by it, the user's iterator |
| `LogFiles`, `Durability` | the engine on disk: crashes at any step, recovery, what is found after it, in every run |
| `Manifests` | the records of the manifest beside a run, and what recovery makes of them |
| `GroupCommit` | the write queue and batch groups |

The formats of its files are modelled byte by byte, and its data structures field by field:

| modules | what they model |
|---|---|
| `Coding`, `Checksums` | integers and strings as bytes; stored checksums |
| `Polynomials`, `Crc32c` | division with remainder by the generator of CRC32C; the strided CRC that computes it |
| `Logs` | the write-ahead log |
| `Comparators` | the bytewise order, internal keys as bytes, and the short keys that separate blocks |
| `Blocks`, `BlockIters` | prefix-compressed blocks and their iterator |
| `Blooms`, `FilterBlocks` | Bloom filters and the filter block |
| `Tables`, `TableReads`, `TwoLevelIters` | building a table file, lookups in it, iterating over it |
| `Batches`, `VersionEdits` | the encodings of write batches and of version edits |
| `SkipLists` | the memtable's skip list, store by store, with a search beside an insertion |
| `Caches` | the block cache: hash table, lists, reference counts |

nanopb is modelled by `Protos` (descriptors, message values, their encoding), `Wire` (the format as a reader
without a descriptor sees it), `ProtoParsing` (what any bytes mean to a descriptor), `ProtoEncoders` and
`ProtoDecoders` (the loops that compute these), `ProtoProjections` (sender and receiver with different
descriptors) and `ProtoRoundTrips`. `Formats` has concrete files and messages of both, byte by byte.

In two places the code does not always do what its comments say; there the theorems are exact conditions:

* Compaction input selection closes the upper level under a shared boundary user key but not the lower one
  (`db/version_set.cc:1407`). A tombstone that is dropped then leaves an older value of the same user key
  visible in the file left behind. `CompactionReads.ReadPreservedIff` says which reads change (*exposed*
  reads), `Lsm.FinishChangesIff` says it of a running engine, `ExposureExample` gives a database where it
  happens, and `BoundaryClosedExposesNothing` shows that closing the lower inputs would be enough.
  Statements about whole runs leave out the reads of a user key from the sequence a compaction exposed it
  at up to its next write (`Lsm.Broken`).
* A memtable flushed while a compaction is merging may be placed at the compaction's output level, in a gap
  between its inputs. The version that is installed then is valid if and only if no output spans the flushed
  table (`Installs.InstallValidIff`, and `Lsm.StepValidIff` for a step of the engine). An automatic
  compaction has no gap (`Selection.VersionSet.PickCompaction`) and never installs such an output
  (`Lsm.AutomaticNeverSpans`); a manual one does in `Background.FlushIntoGapExample`. Statements about
  whole runs hold as long as no such output is installed, in particular without manual compactions.

Two smaller ones:

* `VersionEdit::Clear` keeps the compaction pointers (`db/version_edit.cc:26`), so decoding into a used edit
  puts them in front of the decoded ones; `VersionEdits.EncodeAndDecode` says exactly that.
* `InternalKeyComparator::FindShortestSeparator` asks the user comparator for a separator of two equal keys
  (`db/dbformat.cc:75`). `include/leveldb/comparator.h` promises nothing for them; `Comparators.ComparatorOk`
  asks that the key is left alone, as the bytewise comparator does.

Modelling decisions:

* In the engine a user key is a real number: the user comparator is an arbitrary total order, and every
  countable total order embeds in the reals. Values are strings. The keys of the skip list are points of
  the real line for the same reason. Where bytes matter, in blocks, filters and tables, a key is a byte
  string and the user comparator any total order on byte strings.
* A table is immutable, so a `FileMeta` carries its entries. The table cache and compression are
  transparent. `TableReads.FinishAndGet` and `TwoLevelIters.ScanTable` are what this rests on.
* Decoders and iterators of LevelDB are given, as ghost parameters, what the bytes were made from. Their contracts
  say what they do on bytes that were made from it; on other bytes they stay in bounds and may report damage. The
  decoder of nanopb is given nothing: its result is a function of the bytes, whatever they are.
* Words of the CRC are sets of one-bits. The tables are any that satisfy their defining relations
  (`Crc32c.TablesOk`): an entry of the byte table is its byte shifted through the reflected generator, one of a
  stride table its lane advanced by sixteen bytes. CRC32C itself is the remainder of a division of polynomials, as
  section 12.1 of RFC 3720 defines it (`Crc32c.IsCrc32c`).
* In a nanopb message, storage that is not set, the entries of an array beyond its count, and the bytes
  behind a string's terminator are not part of the value. Default values are zero, as in proto3.
* Sequence numbers are unique per user key, as the writer assigns them, and stored keys parse.
* Sizes of tables and batches come from arbitrary functions (`builtSize`, `tableSize`, `byteSize`), and the choice of
  the level to compact is arbitrary: size scores and seek counts only decide when work is done.
* Concurrency is a state machine whose steps are what happens while the mutex is held.
* Bytes appended to a file are durable.

## Model

| member | source | states |
|---|---|---|
| Keys.CompareAgreesWithBefore | myBowfolio/Pods/leveldb-library/db/dbformat.cc:51-67 | comparing packed tags orders stored keys by user key, then newest first, and a seek key before exactly the entries visible at its sequence |
| Store.Latest | myBowfolio/Pods/leveldb-library/db/dbformat.h:64-67 | the newest entry at or below a sequence exists whenever any entry is visible |
| Versions.FindFile | myBowfolio/Pods/leveldb-library/db/version_set.cc:88-106 | binary search finds the first file whose largest key is not before the target |
| Versions.SomeFileOverlapsRange | myBowfolio/Pods/leveldb-library/db/version_set.cc:122-157 | true exactly when some file meets the user-key range, by scan or by binary search |
| Versions.FilesToSearch | myBowfolio/Pods/leveldb-library/db/version_set.cc:345-382 | the files searched at a level hide no visible entry of the level; at level 0 exactly those with the key in their range, newest first, elsewhere at most one |
| Versions.Get | myBowfolio/Pods/leveldb-library/db/version_set.cc:326-421 | lookup through the levels, stopping at the first hit, equals the newest entry a scan of the whole version finds |
| Versions.FirstHitIsLatest | myBowfolio/Pods/leveldb-library/db/version_set.cc:384-417 | the first hit in search order is the newest visible entry of the version |
| Versions.ValidVersionUnique | myBowfolio/Pods/leveldb-library/db/version_set.cc:1524-1531 | in a valid version no two entries share user key and sequence |
| Selection.GetOverlappingInputs | myBowfolio/Pods/leveldb-library/db/version_set.cc:519-559 | terminates despite its restarts; returns every overlapping file, and at level 0 a set no outside file overlaps, reached without passing over a gap in the level |
| Selection.FindLargestKey | myBowfolio/Pods/leveldb-library/db/version_set.cc:1326-1340 | the largest key of a set of files, or none if it is empty |
| Selection.FindSmallestBoundaryFile | myBowfolio/Pods/leveldb-library/db/version_set.cc:1344-1362 | finds a boundary file whenever there is one |
| Selection.AddBoundaryInputs | myBowfolio/Pods/leveldb-library/db/version_set.cc:1378-1401 | ends with no file of the level starting after the largest chosen key on its user key; adds no duplicates, keeps what was chosen and leaves no new gap |
| Selection.GetRange | myBowfolio/Pods/leveldb-library/db/version_set.cc:1195-1216 | the smallest and largest keys of a set of files |
| Selection.LeftBehindIsNewer | myBowfolio/Pods/leveldb-library/db/version_set.cc:1364-1377 | a file left out of closed inputs of its level holds only newer entries of every user key it shares with them |
| Selection.CompleteInputs | myBowfolio/Pods/leveldb-library/db/version_set.cc:1403-1449 | after selection and optional expansion the upper inputs leave only newer files behind and the lower inputs cover what the upper ones overlap; a choice without a gap stays without one |
| Selection.OtherInputs | myBowfolio/Pods/leveldb-library/db/version_set.cc:1403-1458 | the choice is followed by its boundary files; all files in the range of both levels replace it exactly if they are more, stay under the limit of 25 files and pull in no further lower file; the grandparents are those the range of all inputs meets |
| Selection.VersionSet.SetupOtherInputs | myBowfolio/Pods/leveldb-library/db/version_set.cc:1403-1462 | the inputs are closed, contain what was chosen, are what `OtherInputs` says, have no gap if the choice had none, and the level's compaction pointer becomes their largest key |
| Selection.VersionSet.PickCompaction | myBowfolio/Pods/leveldb-library/db/version_set.cc:1270-1322 | without a seek file it compacts the first file that ends after the level's compaction pointer, or the first of all, and moves the pointer to the end of what it took; with one, that file; at level 0 with all it overlaps. The inputs are closed, completed by the rules of `OtherInputs`, and whatever range is clear of both levels lies to one side of them |
| Rounds.PicksGoRound | myBowfolio/Pods/leveldb-library/db/version_set.cc:1286-1298 | from any compaction pointer, successive automatic picks of an unchanged level take every file of it within as many picks as it has files |
| Selection.VersionSet.CompactRange | myBowfolio/Pods/leveldb-library/db/version_set.cc:1464-1495 | a manual compaction takes, at level 0, the files of the range grown until none sticks out, and elsewhere the overlapping files up to the first with which the size limit is reached; its inputs are closed; none only if no file of the level overlaps the range |
| Compactions.Compaction.IsBaseLevelForKey | myBowfolio/Pods/leveldb-library/db/version_set.cc:1533-1552 | with pointers that only advance, answers for ascending keys whether no deeper file can hold the key |
| Compactions.Compaction.ShouldStopBefore | myBowfolio/Pods/leveldb-library/db/version_set.cc:1554-1576 | counting on as the merge goes, it says stop exactly at the keys at which the grandparents left behind since the last stop, or since the first key, exceed ten file sizes |
| Compactions.Compaction.ShouldDrop | myBowfolio/Pods/leveldb-library/db/db_impl.cc:929-963 | an entry is dropped exactly if a newer one hides it from every live snapshot or it is an obsolete deletion |
| Compactions.DoCompactionWork | myBowfolio/Pods/leveldb-library/db/db_impl.cc:878-999 | the outputs hold exactly the kept entries, in order, in disjoint files with new numbers; a file ends where it has become large enough or where the merge has stopped since its last entry, and nowhere else |
| Compactions.CutsUnique | myBowfolio/Pods/leveldb-library/db/db_impl.cc:920-926 | that rule leaves one way to cut the entries into files |
| Compactions.KeptSorted | myBowfolio/Pods/leveldb-library/db/db_impl.cc:911-990 | what is kept stays sorted and comes from the input |
| Compactions.OutputsDisjoint | myBowfolio/Pods/leveldb-library/db/db_impl.cc:966-989 | cutting a sorted stream into files gives disjoint files |
| CompactionReads.KeptOf | myBowfolio/Pods/leveldb-library/db/db_impl.cc:929-963 | the drop rule keeps everything above the smallest snapshot, and of the rest the newest entry per user key unless it is an obsolete deletion |
| CompactionReads.RestIsNewer | myBowfolio/Pods/leveldb-library/db/version_set.cc:1524-1552 | an entry outside the compaction is left behind at the output level or newer than every input of its user key, when nothing deeper can hold the key |
| CompactionReads.ReadPreservedIff | myBowfolio/Pods/leveldb-library/db/db_impl.cc:890-999 | from the smallest snapshot on, a compaction preserves a read if and only if the newest entry there is not an obsolete deletion among the inputs with a value of the key left behind at the output level |
| CompactionReads.ReadsPreservedIff | myBowfolio/Pods/leveldb-library/db/db_impl.cc:890-999 | a compaction preserves every read at every snapshot from the smallest on if and only if it does not expose the user key |
| CompactionReads.BoundaryClosedExposesNothing | myBowfolio/Pods/leveldb-library/db/version_set.cc:1364-1377 | with lower inputs closed under a shared boundary user key nothing is exposed |
| CompactionReads.ExposureExample | myBowfolio/Pods/leveldb-library/db/version_set.cc:1403-1411 | a valid database and a selection the code makes on which a deleted key comes back |
| Builders.BySmallestIsCompare | myBowfolio/Pods/leveldb-library/db/version_set.cc:593-605 | files are ordered by smallest key, then by number |
| Builders.SaveTo | myBowfolio/Pods/leveldb-library/db/version_set.cc:695-754 | the new level is sorted and holds exactly the base and added files that were not deleted, each once |
| Builders.ReplayEqualsInstalling | myBowfolio/Pods/leveldb-library/db/version_set.cc:926-992 | replaying edits in one builder, as recovery does, leaves the files that installing them one version at a time leaves, if no number is added again |
| Builders.SortedListUnique | myBowfolio/Pods/leveldb-library/db/version_set.cc:695-754 | the files of a level determine their list |
| Installs.LogAndApply | myBowfolio/Pods/leveldb-library/db/version_set.cc:816-822 | every level of the new version is the old level with the edit applied, sorted |
| Installs.RecoverLevel | myBowfolio/Pods/leveldb-library/db/version_set.cc:926-992 | replaying the manifest gives each level the very list the last installed version had, if no number is added again |
| Installs.InstallCompactionResults | myBowfolio/Pods/leveldb-library/db/db_impl.cc:860-876 | exactly the inputs leave their levels and exactly the outputs join the output level |
| Installs.InstallValidIff | myBowfolio/Pods/leveldb-library/db/db_impl.cc:860-876 | with a selection that still fits after flushes, the installed version keeps levels disjoint and, per user key, everything shallower newer than everything deeper, if and only if no output spans a table at the output level |
| Installs.SelectedNeverSpans | myBowfolio/Pods/leveldb-library/db/version_set.cc:1403-1449 | no output of a selection that is still closed spans such a table |
| Installs.InstallKeepsValid | myBowfolio/Pods/leveldb-library/db/version_set.cc:1270-1495 | installing any compaction whose selection is closed keeps the version valid |
| Flushes.PickLevelForMemTableOutput | myBowfolio/Pods/leveldb-library/db/version_set.cc:491-516 | level 0 if a level-0 table meets the memtable's range; otherwise the deepest level, up to 2, to which it meets no table on the way and not too many bytes of the level after next; below level 0, nothing at the level or above meets the range |
| Flushes.CompactMemTable | myBowfolio/Pods/leveldb-library/db/db_impl.cc:491-555 | the flushed table joins the chosen level and nothing else changes |
| Flushes.FlushKeepsValid | myBowfolio/Pods/leveldb-library/db/version_set.cc:491-516 | installing a flushed memtable keeps a version valid and adds exactly its entries |
| Flushes.InstallRebuilt | myBowfolio/Pods/leveldb-library/db/db_impl.cc:371-533 | the tables a recovery rebuilds join level 0 and nothing else changes |
| Flushes.RebuiltKeepsValid | myBowfolio/Pods/leveldb-library/db/db_impl.cc:371-488 | adding tables rebuilt in log order keeps a version valid and adds exactly their entries |
| Lsm.Get | myBowfolio/Pods/leveldb-library/db/db_impl.cc:1100-1145 | a read through memtable, immutable memtable and levels finds what a read of all entries finds |
| Lsm.FitSurvivesFlush | myBowfolio/Pods/leveldb-library/db/db_impl.cc:894-907 | wherever a memtable is flushed during a compaction, the selection still fits: what came to the output level shares no user key with the inputs |
| Lsm.SelectionSurvivesFlush | myBowfolio/Pods/leveldb-library/db/db_impl.cc:894-907 | a flush during a compaction leaves its inputs closed if and only if it did not land at the output level between them |
| Lsm.GaplessSurvivesFlush | myBowfolio/Pods/leveldb-library/db/db_impl.cc:894-907 | a flush during an automatic compaction always leaves its inputs closed |
| Lsm.FinishChangesIff | myBowfolio/Pods/leveldb-library/db/db_impl.cc:929-1032 | in a running engine the end of a compaction changes exactly the reads it exposes and no newer write hides |
| Lsm.StepKeepsInv | myBowfolio/Pods/leveldb-library/db/db_impl.cc:688-767 | every step that does not install an output spanning a flushed table keeps the layers ordered, the version valid, and reads at live snapshots right but for exposed user keys not written since |
| Lsm.StepValidIff | myBowfolio/Pods/leveldb-library/db/db_impl.cc:688-767 | a step leaves the engine readable if and only if it does not install such an output |
| Lsm.AutomaticNeverSpans | myBowfolio/Pods/leveldb-library/db/db_impl.cc:688-767 | an automatic compaction never installs such an output, whatever was flushed meanwhile |
| Lsm.HealedByWrite | myBowfolio/Pods/leveldb-library/db/db_impl.cc:929-963 | the next write of an exposed user key makes its later reads right again |
| Lsm.SnapshotKeepsInv | myBowfolio/Pods/leveldb-library/db/snapshot.h:39-90 | taking and releasing snapshots keeps the list ordered, and the oldest live snapshot never goes back |
| Lsm.RunsReadCorrectly | myBowfolio/Pods/leveldb-library/db/db_impl.cc:878-1036 | after every run without such an output, a read at any live snapshot finds what everything ever written says, for every user key not exposed at or before it or written since |
| Lsm.AutomaticRunsNeverSpan | myBowfolio/Pods/leveldb-library/db/db_impl.cc:688-767 | a run without manual compactions has no such output |
| Mergers.MergingIterator.FindSmallest | myBowfolio/Pods/leveldb-library/table/merger.cc:148-161 | picks the child at the next entry of the union |
| Mergers.MergingIterator.FindLargest | myBowfolio/Pods/leveldb-library/table/merger.cc:163-176 | picks the child at the previous entry of the union |
| Mergers.MergingIterator.Next | myBowfolio/Pods/leveldb-library/table/merger.cc:55-81 | moves one entry forward on the sorted union, from either direction |
| Mergers.MergingIterator.Prev | myBowfolio/Pods/leveldb-library/table/merger.cc:83-108 | moves one entry back on the sorted union, from either direction |
| Mergers.MergingIterator.Seek | myBowfolio/Pods/leveldb-library/table/merger.cc:47-53 | stands at the first entry of the union at or after the target |
| Mergers.MergingIterator.SeekToFirst | myBowfolio/Pods/leveldb-library/table/merger.cc:31-37 | stands at the first entry of the union |
| Mergers.MergingIterator.SeekToLast | myBowfolio/Pods/leveldb-library/table/merger.cc:39-45 | stands at the last entry of the union |
| Background.MergeInputs | myBowfolio/Pods/leveldb-library/db/version_set.cc:1237-1268 | the iterator over a compaction's inputs yields all their entries in one sorted sequence |
| Background.RunCompaction | myBowfolio/Pods/leveldb-library/db/db_impl.cc:688-767 | a whole compaction installs a valid version and changes exactly the exposed reads |
| Background.FinishJob | myBowfolio/Pods/leveldb-library/db/db_impl.cc:878-1036 | merging, dropping, writing and installing a compaction chosen earlier is the step the runs take for its end; its outputs are cut as they should be |
| Background.FinishFlush | myBowfolio/Pods/leveldb-library/db/db_impl.cc:491-566 | writing, placing and installing a memtable is the step the runs take for a flush |
| Background.FlushIntoGapExample | myBowfolio/Pods/leveldb-library/db/db_impl.cc:894-907 | a memtable flushed during a manual compaction of two files, whose output is all that the drop rule keeps of them, leaves a level with overlapping files |
| DbIters.ViewIsReads | myBowfolio/Pods/leveldb-library/db/db_iter.cc:34-38 | the view of an iterator is strictly ascending and holds exactly what reads at its sequence find |
| DbIters.DBIter.FindNextUserEntry | myBowfolio/Pods/leveldb-library/db/db_iter.cc:168-198 | stops at the first entry shown past the skipped key |
| DbIters.DBIter.FindPrevUserEntry | myBowfolio/Pods/leveldb-library/db/db_iter.cc:227-267 | stops at the last entry shown before the position, with its key and value saved |
| DbIters.DBIter.Next | myBowfolio/Pods/leveldb-library/db/db_iter.cc:141-166 | moves to the next place of the view, from either direction |
| DbIters.DBIter.Prev | myBowfolio/Pods/leveldb-library/db/db_iter.cc:200-225 | moves to the previous place of the view, from either direction |
| DbIters.DBIter.Seek | myBowfolio/Pods/leveldb-library/db/db_iter.cc:269-281 | moves to the first visible key at or after the target |
| DbIters.DBIter.SeekToFirst | myBowfolio/Pods/leveldb-library/db/db_iter.cc:283-292 | moves to the first place of the view |
| DbIters.DBIter.SeekToLast | myBowfolio/Pods/leveldb-library/db/db_iter.cc:294-299 | moves to the last place of the view |
| DbIters.DBIter.Key | myBowfolio/Pods/leveldb-library/db/db_iter.cc:64-67 | in either direction the key at the current place |
| DbIters.DBIter.GetValue | myBowfolio/Pods/leveldb-library/db/db_iter.cc:68-71 | in either direction the value at the current place |
| Iterators.AddIterators | myBowfolio/Pods/leveldb-library/db/db_impl.cc:1062-1078 | the children of the internal iterator hold all entries of the database, each once |
| Iterators.NewIterator | myBowfolio/Pods/leveldb-library/db/db_impl.cc:1147-1157 | a new iterator lists exactly what reads at its sequence find |
| Iterators.IterateAfterRun | myBowfolio/Pods/leveldb-library/db/db_impl.cc:1147-1157 | after every run it lists, of user keys whose read no compaction broke, what everything ever written says |
| Checksums.UnmaskMask | myBowfolio/Pods/leveldb-library/util/crc32c.h:31-38 | unmasking undoes masking |
| Logs.CutJoins | myBowfolio/Pods/leveldb-library/db/log_writer.cc:34-80 | cutting a record into fragments loses nothing |
| Logs.CutTagged | myBowfolio/Pods/leveldb-library/db/log_writer.cc:62-72 | the fragments of a record are tagged full, or first, middle, last |
| Logs.CutPlaced | myBowfolio/Pods/leveldb-library/db/log_writer.cc:44-60 | no fragment crosses a block boundary |
| Logs.Writer.AddRecord | myBowfolio/Pods/leveldb-library/db/log_writer.cc:34-80 | appends exactly the fragments of the record, trailers included |
| Logs.Writer.EmitPhysicalRecord | myBowfolio/Pods/leveldb-library/db/log_writer.cc:82-108 | appends header and payload of one fragment |
| Logs.Reader.CheckHeader | myBowfolio/Pods/leveldb-library/db/log_reader.cc:216-257 | for any buffer, accepts a fragment exactly if all of it is there, it is not a preallocated region, and its checksum matches, if asked to check; reports what is refused, except a fragment the end of the file cuts off |
| Logs.Reader.ReadPhysicalRecord | myBowfolio/Pods/leveldb-library/db/log_reader.cc:189-271 | in any file, a fragment it gives stands there behind its header, with a matching checksum if asked to check; in a log it gives the next fragment, or the end of the file if it is cut off, and reports nothing |
| Logs.Reader.AddFragment | myBowfolio/Pods/leveldb-library/db/log_reader.cc:91-171 | what each kind of fragment does to the record being put together, and what is reported as dropped |
| Logs.Reader.ReadRecord | myBowfolio/Pods/leveldb-library/db/log_reader.cc:56-174 | in a log, gives the next record if it is there as a whole, otherwise ends without a report |
| Logs.ReadLog | myBowfolio/Pods/leveldb-library/db/db_impl.cc:412-453 | reading any byte prefix of a log gives exactly the records wholly inside it and reports no corruption |
| Logs.WriteTruncateRead | myBowfolio/Pods/leveldb-library/db/log_reader.cc:56-271 | writing any records, cutting the file anywhere and reading it gives exactly the records wholly inside what is left |
| LogFiles.ReplaySuffix | myBowfolio/Pods/leveldb-library/db/db_impl.cc:312-346 | reading the logs from a later number gives the end of what reading from an earlier one gives |
| LogFiles.KeptReplay | myBowfolio/Pods/leveldb-library/db/db_impl.cc:245-248 | deleting the logs below a number changes nothing for a recovery from there |
| Durability.RecoveryFindsEverything | myBowfolio/Pods/leveldb-library/db/db_impl.cc:280-369 | in every state, the manifest's tables are there and with the logs it names hold, for reads, every acknowledged write |
| Durability.SequenceRecovered | myBowfolio/Pods/leveldb-library/db/db_impl.cc:364-366 | the recovered last sequence is at least that of every write found, and the last one published |
| Durability.FlushIsReady | myBowfolio/Pods/leveldb-library/db/db_impl.cc:491-549 | the edit the code composes for a flush is one the engine can take |
| Durability.EditOnDisk | myBowfolio/Pods/leveldb-library/db/db_impl.cc:811-876 | every table an edit names is on disk before the edit is written |
| Durability.DeleteKeepsLive | myBowfolio/Pods/leveldb-library/db/db_impl.cc:223-278 | exactly the tables of versions in use and the outputs being written stay, and exactly the logs a recovery would read |
| Durability.InstallKeepsInv | myBowfolio/Pods/leveldb-library/db/version_set.cc:841-883 | the gap between writing the manifest and installing the version is safe |
| Durability.RebuiltInOrder | myBowfolio/Pods/leveldb-library/db/db_impl.cc:409-453 | the tables rebuilt from the logs get ascending numbers, each newer than those before, and hold what was read |
| Durability.OpenedInv | myBowfolio/Pods/leveldb-library/db/db_impl.cc:1474-1512 | the engine a recovery ends with has a valid version and satisfies the invariant of running engines, so lookups and iterators are right in it |
| Durability.StepKeepsInv | myBowfolio/Pods/leveldb-library/db/db_impl.cc:280-566 | every step of writers, background thread, crash and recovery keeps memory, logs, tables and manifest in agreement, unless it composes an output spanning a flushed table |
| Durability.NothingAcknowledgedIsLost | myBowfolio/Pods/leveldb-library/db/db_impl.cc:280-369 | in every run with crashes and recoveries, and whenever it stops, no acknowledged write is lost and the batch in flight is kept or dropped as a whole |
| Durability.GetAfterRun | myBowfolio/Pods/leveldb-library/db/db_impl.cc:1100-1145 | a lookup in an engine that came up after any number of crashes finds what every acknowledged write says |
| Durability.AutomaticRunsNeverSpan | myBowfolio/Pods/leveldb-library/db/db_impl.cc:688-767 | runs without manual compactions never compose an output spanning a flushed table |
| Manifests.StepInstalls | myBowfolio/Pods/leveldb-library/db/version_set.cc:801-826 | the edit composed for a step, applied level by level, leads to the version the step installs |
| Manifests.AddsFresh | myBowfolio/Pods/leveldb-library/db/version_set.cc:1515-1522 | no edit adds a file number at a level where an earlier record of the manifest added it |
| Manifests.OpenKeepsBook | myBowfolio/Pods/leveldb-library/db/version_set.cc:1088-1116 | the snapshot and the edit a new manifest starts with lead from nothing to the recovered version |
| Manifests.Recover | myBowfolio/Pods/leveldb-library/db/version_set.cc:903-992 | replaying the records in one builder per level gives the version the last of them led to |
| Manifests.RecoverAfterRun | myBowfolio/Pods/leveldb-library/db/version_set.cc:886-1011 | in every run with crashes, whenever it stops, replaying the manifest's records gives the version the results on crashes take it for |
| GroupCommit.BuildBatchGroup | myBowfolio/Pods/leveldb-library/db/db_impl.cc:1260-1306 | the longest prefix of the queue within the size limit and without a sync writer behind a non-sync leader, its operations in order |
| GroupCommit.GroupUnique | myBowfolio/Pods/leveldb-library/db/db_impl.cc:1280-1304 | the queue alone determines the group |
| GroupCommit.GroupIsBatch | myBowfolio/Pods/leveldb-library/db/db_impl.cc:1204-1242 | the engine can take any group: it is a batch for the log, and inserting it a write step with consecutive sequence numbers |
| GroupCommit.StepKeepsInv | myBowfolio/Pods/leveldb-library/db/db_impl.cc:1185-1256 | queueing, committing, failing and reading keep the order of writers and sequence numbers |
| GroupCommit.QueueIsFair | myBowfolio/Pods/leveldb-library/db/db_impl.cc:1185-1256 | writers finish once, in queue order, with consecutive sequence numbers; no snapshot sees part of a group; a successful sync writer's record was synced |
| Crc32c.TablesLinear | myBowfolio/Pods/leveldb-library/util/crc32c.cc:20-64 | byte tables made bit by bit are linear with respect to exclusive-or |
| Crc32c.Superpose | myBowfolio/Pods/leveldb-library/util/crc32c.cc:286-300 | with linear byte tables, feeding bytes to the exclusive-or of two words is the exclusive-or of feeding each |
| Crc32c.StrideAdvances | myBowfolio/Pods/leveldb-library/util/crc32c.cc:293-300 | one step of a stride moves its lane by sixteen bytes |
| Crc32c.Strides | myBowfolio/Pods/leveldb-library/util/crc32c.cc:332-366 | the four interleaved lanes, advanced by swaths and words and combined, give what the bytes give one at a time |
| Crc32c.CrcDivides | myBowfolio/Pods/leveldb-library/util/crc32c.cc:284-291 | byte by byte, with all bits complemented before and after, the table computes the remainder of the message divided by the generator |
| Crc32c.CrcUnique | myBowfolio/Pods/leveldb-library/util/crc32c.cc:276-377 | the division determines the CRC |
| Polynomials.RemainderUnique | myBowfolio/Pods/leveldb-library/util/crc32c.cc:20-64 | a polynomial has one remainder modulo the generator |
| Crc32c.Extend | myBowfolio/Pods/leveldb-library/util/crc32c.cc:276-377 | for every length and alignment the strided CRC is the CRC taken byte by byte, and the CRC32C of section 12.1 of RFC 3720 |
| Crc32c.ExtendComposes | myBowfolio/Pods/leveldb-library/util/crc32c.cc:276-377 | extending over one buffer and then another is extending over both together |
| Caches.HandleTable.Lookup | myBowfolio/Pods/leveldb-library/util/cache.cc:73-75 | finds the entry of the key if the table has one |
| Caches.HandleTable.Insert | myBowfolio/Pods/leveldb-library/util/cache.cc:77-91 | the key maps to the new entry, the one it replaces is returned, and the rest stays; after a new entry there are no more entries than buckets |
| Caches.HandleTable.Remove | myBowfolio/Pods/leveldb-library/util/cache.cc:93-101 | the key is gone, its entry is returned, and the rest stays |
| Caches.HandleTable.Resize | myBowfolio/Pods/leveldb-library/util/cache.cc:124-147 | growing the bucket array changes neither the key map nor the entries |
| Caches.LRUCache.Lookup | myBowfolio/Pods/leveldb-library/util/cache.cc:252-259 | returns the cached entry with one more reference, moved out of the eviction list to the entries in use |
| Caches.LRUCache.Release | myBowfolio/Pods/leveldb-library/util/cache.cc:261-264 | one reference less; the last one frees an entry that is no longer cached, and makes a cached one the newest that may be evicted |
| Caches.LRUCache.Insert | myBowfolio/Pods/leveldb-library/util/cache.cc:266-303 | the new entry is cached under its key, replaces the old one there, and is returned with a reference; only the oldest evictable entries are dropped, as few as bring usage within capacity; all others stay in their order |
| Caches.LRUCache.FinishErase | myBowfolio/Pods/leveldb-library/util/cache.cc:307-316 | an entry taken out of the table leaves its list, its charge and the cache's reference |
| Caches.LRUCache.Erase | myBowfolio/Pods/leveldb-library/util/cache.cc:318-321 | exactly the entry of the key leaves the cache |
| Caches.LRUCache.Prune | myBowfolio/Pods/leveldb-library/util/cache.cc:323-333 | evicts every entry without clients and no other |
| Caches.LRUCache.EvictOldest | myBowfolio/Pods/leveldb-library/util/cache.cc:290-298 | evicts the oldest entry without clients |
| Coding.EncodeVarint32 | myBowfolio/Pods/leveldb-library/util/coding.cc:47-75 | the unrolled encoder writes the base-128 digits |
| Coding.EncodeVarint64 | myBowfolio/Pods/leveldb-library/util/coding.cc:83-92 | the loop writes the base-128 digits |
| Coding.VarintLength | myBowfolio/Pods/leveldb-library/util/coding.cc:109-116 | counts the bytes the encoder writes |
| Coding.GetVarint32 | myBowfolio/Pods/leveldb-library/util/coding.h:90-100 | any bytes: ends behind the first byte without its high bit if that is among the first five, and fails otherwise; reads back any encoded 32-bit number |
| Coding.GetVarint64 | myBowfolio/Pods/leveldb-library/util/coding.cc:152-168 | any bytes: ends behind the first byte without its high bit if that is among the first ten, and fails otherwise; reads back any encoded 64-bit number |
| Coding.VarintUnique | myBowfolio/Pods/leveldb-library/util/coding.cc:118-136 | no number's encoding is the beginning of another's |
| Coding.GetLengthPrefixed | myBowfolio/Pods/leveldb-library/util/coding.cc:171-191 | reads back a string with its length in front |
| Coding.Fixed64RoundTrip | myBowfolio/Pods/leveldb-library/util/coding.cc:21-37 | fixed-width numbers are read back |
| Comparators.FindShortestSeparator | myBowfolio/Pods/leveldb-library/util/comparator.cc:29-50 | the editing loop gives the separator the lemmas speak of |
| Comparators.SeparatorBetween | myBowfolio/Pods/leveldb-library/util/comparator.cc:29-50 | the separator of two keys in order is not below the first and below the second |
| Comparators.FindShortSuccessor | myBowfolio/Pods/leveldb-library/util/comparator.cc:52-64 | the loop gives the successor the lemmas speak of |
| Comparators.BytewiseOk | myBowfolio/Pods/leveldb-library/util/comparator.cc:19-65 | the bytewise comparator is a total order and keeps every promise of a comparator |
| Comparators.InternalOrder | myBowfolio/Pods/leveldb-library/db/dbformat.cc:51-67 | internal keys are ordered strictly under any user comparator |
| Comparators.InternalSeparates | myBowfolio/Pods/leveldb-library/db/dbformat.cc:69-86 | a shortened key separates user keys strictly, one that is not shortened is the key itself |
| Comparators.InternalSucceeds | myBowfolio/Pods/leveldb-library/db/dbformat.cc:88-101 | a shortened successor has a larger user key, one that is not shortened is the key itself |
| Blocks.BlockBuilder.Add | myBowfolio/Pods/leveldb-library/table/block_builder.cc:72-106 | the entry is laid out behind the others, sharing its longest common prefix with the key before it except at a restart point every interval entries |
| Blocks.BlockBuilder.Finish | myBowfolio/Pods/leveldb-library/table/block_builder.cc:62-70 | the result is a block of the added entries, as long as the size estimate said |
| Comparators.Common | myBowfolio/Pods/leveldb-library/table/block_builder.cc:79-84 | the longest common prefix of two keys |
| BlockIters.DecodeEntry | myBowfolio/Pods/leveldb-library/table/block.cc:54-74 | reads back the lengths and bytes of an entry, by the fast path or the slow one |
| BlockIters.BlockIter.ParseNextKey | myBowfolio/Pods/leveldb-library/table/block.cc:224-251 | moves to the next entry, restoring its key from the one before, or off the end |
| BlockIters.BlockIter.Next | myBowfolio/Pods/leveldb-library/table/block.cc:137-140 | moves one entry forward |
| BlockIters.BlockIter.Prev | myBowfolio/Pods/leveldb-library/table/block.cc:142-161 | moves one entry back, undoing Next |
| BlockIters.BlockIter.FindRestart | myBowfolio/Pods/leveldb-library/table/block.cc:164-189 | binary search stops at the last restart point with a key below the target, or at the first of all |
| BlockIters.BlockIter.Seek | myBowfolio/Pods/leveldb-library/table/block.cc:163-201 | lands on the first entry whose key is not below the target, or off the end |
| BlockIters.BlockIter.SeekToLast | myBowfolio/Pods/leveldb-library/table/block.cc:208-213 | lands on the last entry |
| BlockIters.OpenBlock | myBowfolio/Pods/leveldb-library/table/block.cc:24-39 | a finished block is opened with its own restart array |
| BlockIters.BuildAndScan | myBowfolio/Pods/leveldb-library/table/block.cc:203-251 | for any ascending keys and any restart interval, iterating over the finished block yields the added pairs |
| Blooms.CreateFilter | myBowfolio/Pods/leveldb-library/util/bloom.cc:28-54 | appends the filter of the keys |
| Blooms.FilterBits | myBowfolio/Pods/leveldb-library/util/bloom.cc:28-54 | the bits of a filter are the probes of its keys and no others |
| Blooms.KeyMayMatch | myBowfolio/Pods/leveldb-library/util/bloom.cc:56-80 | says yes exactly if all probes of the key are set, or the filter has a reserved encoding |
| Blooms.KeysMatch | myBowfolio/Pods/leveldb-library/util/bloom.cc:28-80 | a filter has no false negatives |
| FilterBlocks.FilterBlockBuilder.StartBlock | myBowfolio/Pods/leveldb-library/table/filter_block.cc:21-27 | makes the filters before the block's and moves no key to another filter |
| FilterBlocks.FilterBlockBuilder.GenerateFilter | myBowfolio/Pods/leveldb-library/table/filter_block.cc:51-75 | one more filter, of exactly the keys that waited |
| FilterBlocks.FilterBlockBuilder.Finish | myBowfolio/Pods/leveldb-library/table/filter_block.cc:35-49 | the keys that wait get one more filter; the block holds every filter where its offset array says |
| FilterBlocks.ReadsGroup | myBowfolio/Pods/leveldb-library/table/filter_block.cc:77-104 | the reader asks the filter made from the keys of the offset's group, and lets everything pass behind the last one |
| FilterBlocks.BloomPolicyOk | myBowfolio/Pods/leveldb-library/util/bloom.cc:17-85 | the Bloom policy matches every key of a filter |
| FilterBlocks.InternalPolicyMatches | myBowfolio/Pods/leveldb-library/db/dbformat.cc:105-119 | a key matches if a stored key has its user key |
| Tables.TableBuilder.Add | myBowfolio/Pods/leveldb-library/table/table_builder.cc:94-123 | the entry joins the table; the index entry that waited now separates its block from the new key; the data block is written exactly when it has reached the block size |
| Tables.TableBuilder.Flush | myBowfolio/Pods/leveldb-library/table/table_builder.cc:125-139 | the waiting entries are written as a block that the index entry to come will find |
| Tables.TableBuilder.WriteBlock | myBowfolio/Pods/leveldb-library/table/table_builder.cc:141-194 | appends the finished block with its type and checksum and says where it is |
| Tables.TableBuilder.Finish | myBowfolio/Pods/leveldb-library/table/table_builder.cc:198-253 | the file is a table of exactly the added entries, in order |
| Tables.IndexRises | myBowfolio/Pods/leveldb-library/table/table_builder.cc:102-109 | the keys of the index ascend |
| TableReads.ReadBlock | myBowfolio/Pods/leveldb-library/table/format.cc:64-139 | in any file, succeeds exactly if the block is there, is not compressed, and has a matching checksum, if asked to check; reads back a stored block |
| TableReads.DecodeFooter | myBowfolio/Pods/leveldb-library/table/format.cc:42-62 | fails without the magic number; reads back the places of the metaindex and the index |
| TableReads.ReadMeta | myBowfolio/Pods/leveldb-library/table/table.cc:84-134 | finds the filter exactly if the policy has the name the table was built with |
| TableReads.OpenTable | myBowfolio/Pods/leveldb-library/table/table.cc:38-82 | does not open a file without the magic number; opening a finished file gives its index and its filter |
| TableReads.FirstThroughIndex | myBowfolio/Pods/leveldb-library/table/table.cc:216-244 | the first entry from the key on in the block the index gives is the first of the table; if the block has none, the next has another user key |
| TableReads.FilterHidesNothing | myBowfolio/Pods/leveldb-library/table/table.cc:226-228 | the filter lets every lookup through whose user key is in the block |
| TableReads.InternalGet | myBowfolio/Pods/leveldb-library/table/table.cc:216-244 | reports the first entry of the table from the key on, or nothing if that has another user key |
| TableReads.FinishAndGet | myBowfolio/Pods/leveldb-library/table/table.cc:216-244 | finishing a table, opening the file and looking a key up answers as a scan of the added entries would |
| TwoLevelIters.TwoLevelIterator.InitDataBlock | myBowfolio/Pods/leveldb-library/table/two_level_iterator.cc:146-161 | afterwards the data iterator is one of the block the index is at, reused or new |
| TwoLevelIters.TwoLevelIterator.Next | myBowfolio/Pods/leveldb-library/table/two_level_iterator.cc:103-107 | moves one entry forward, across blocks |
| TwoLevelIters.TwoLevelIterator.Prev | myBowfolio/Pods/leveldb-library/table/two_level_iterator.cc:109-113 | moves one entry back, across blocks |
| TwoLevelIters.TwoLevelIterator.Seek | myBowfolio/Pods/leveldb-library/table/two_level_iterator.cc:82-87 | lands on the first entry of the table whose key is not below the target |
| TwoLevelIters.TwoLevelIterator.SeekToLast | myBowfolio/Pods/leveldb-library/table/two_level_iterator.cc:96-101 | lands on the last entry of the table |
| TwoLevelIters.ScanTable | myBowfolio/Pods/leveldb-library/table/two_level_iterator.cc:71-161 | a forward scan of an opened table yields its entries in order |
| SkipLists.SkipList.FindGreaterOrEqual | myBowfolio/Pods/leveldb-library/db/skiplist.h:260-281 | finds the node with the least key not below the target, and the last node before it at every level |
| SkipLists.SkipList.FindLessThan | myBowfolio/Pods/leveldb-library/db/skiplist.h:283-302 | finds the node with the greatest key below the target |
| SkipLists.SkipList.FindLast | myBowfolio/Pods/leveldb-library/db/skiplist.h:304-322 | finds the node with the greatest key |
| SkipLists.SkipList.Contains | myBowfolio/Pods/leveldb-library/db/skiplist.h:370-378 | says whether the key is in the set |
| SkipLists.SkipList.Publish | myBowfolio/Pods/leveldb-library/db/skiplist.h:362-367 | after the store the list is a skip list of one level more of the node |
| SkipLists.Inserter.Step | myBowfolio/Pods/leveldb-library/db/skiplist.h:346-367 | between any two stores of an insertion the list is a skip list of the keys before or of those and the new one |
| SkipLists.Insert | myBowfolio/Pods/leveldb-library/db/skiplist.h:336-368 | adds exactly the key, whatever height is drawn |
| SkipLists.Search.Step | myBowfolio/Pods/leveldb-library/db/skiplist.h:260-281 | every load takes a search a node further or a level down, or ends it with the first key at or after the target at that moment |
| SkipLists.Race | myBowfolio/Pods/leveldb-library/db/skiplist.h:260-368 | under every schedule a search beside an insertion answers for the keys before it or for those and the new one |
| SkipLists.ListIterator.Next | myBowfolio/Pods/leveldb-library/db/skiplist.h:206-210 | moves to the next key upwards |
| SkipLists.ListIterator.Prev | myBowfolio/Pods/leveldb-library/db/skiplist.h:212-221 | moves to the next key downwards |
| SkipLists.ListIterator.SeekToLast | myBowfolio/Pods/leveldb-library/db/skiplist.h:233-239 | moves to the greatest key, if there is one |
| Batches.ParseRep | myBowfolio/Pods/leveldb-library/db/write_batch.cc:82-96 | sequence number, count and operations are read back from the header and what follows it |
| Batches.Iterate | myBowfolio/Pods/leveldb-library/db/write_batch.cc:42-80 | hands over the operations in order, and succeeds exactly if the count is right |
| Batches.WriteBatch.Put | myBowfolio/Pods/leveldb-library/db/write_batch.cc:98-103 | one more operation, counted |
| Batches.WriteBatch.Append | myBowfolio/Pods/leveldb-library/db/write_batch.cc:144-148 | the operations of the other batch follow those that are there, counted |
| Batches.WriteBatch.InsertInto | myBowfolio/Pods/leveldb-library/db/write_batch.cc:116-137 | each operation gets its own sequence number, in order |
| VersionEdits.EncodeTo | myBowfolio/Pods/leveldb-library/db/version_edit.cc:41-85 | the bytes are records that together say what the edit says |
| VersionEdits.DecodeFrom | myBowfolio/Pods/leveldb-library/db/version_edit.cc:107-205 | every record does its part; of the edit that was there only the compaction pointers count |
| VersionEdits.EncodeAndDecode | myBowfolio/Pods/leveldb-library/db/version_edit.cc:26-205 | decoding restores the encoded edit behind the old compaction pointers, so exactly if there were none |
| Protos.FieldIter.Next | myBowfolio/Pods/nanopb/pb_common.c:20-76 | walks the fields in a circle and counts the required ones before |
| Protos.FieldIter.Find | myBowfolio/Pods/nanopb/pb_common.c:78-95 | finds a field with the tag if there is one, from anywhere in the circle |
| Protos.DefaultCheckExact | myBowfolio/Pods/nanopb/pb_encode.c:240-337 | the check calls a field default exactly if it has its default value and nothing in its type is required or of fixed length |
| ProtoEncoders.OStream.EncodeVarint | myBowfolio/Pods/nanopb/pb_encode.c:608-628 | writes the base-128 digits |
| ProtoEncoders.OStream.EncodeArray | myBowfolio/Pods/nanopb/pb_encode.c:147-236 | writes an array packed or entry by entry; fails exactly if it is too long or does not fit the stream |
| ProtoEncoders.OStream.PackedSize | myBowfolio/Pods/nanopb/pb_encode.c:169-189 | the size in front of a packed array is that of its entries |
| ProtoEncoders.OStream.EncodeSubmessage | myBowfolio/Pods/nanopb/pb_encode.c:717-765 | the sizing pass and the writing pass agree, so a message is written behind its length; nothing else can fail |
| ProtoEncoders.OStream.EncodeField | myBowfolio/Pods/nanopb/pb_encode.c:341-426 | writes the field if it is present |
| ProtoEncoders.OStream.Encode | myBowfolio/Pods/nanopb/pb_encode.c:528-550 | writes exactly the encoding of the message, or counts it on a sizing stream; fails exactly if a count or size is out of bounds or the stream is too short |
| ProtoRoundTrips.GetEncodedSize | myBowfolio/Pods/nanopb/pb_encode.c:567-576 | the size of the encoding, without writing it |
| ProtoDecoders.IStream.DecodeVarint32 | myBowfolio/Pods/nanopb/pb_decode.c:187-247 | any bytes: succeeds exactly on a varint of up to five bytes and 32 bits, or a longer one padded with zeros or a sign, and gives its bits |
| ProtoDecoders.IStream.DecodeVarint | myBowfolio/Pods/nanopb/pb_decode.c:255-275 | any bytes: succeeds exactly on a varint of up to ten bytes and gives its low 64 bits |
| ProtoDecoders.IStream.DecodeSigned | myBowfolio/Pods/nanopb/pb_decode.c:1329-1364 | any bytes: gives the number, of a small field from its low 32 bits, exactly if it fits the field |
| ProtoDecoders.IStream.DecodeZigZag | myBowfolio/Pods/nanopb/pb_decode.c:1390-1412 | any bytes: gives the number exactly if it fits the field |
| ProtoDecoders.IStream.DecodeString | myBowfolio/Pods/nanopb/pb_decode.c:1468-1501 | any bytes: gives the string up to its first zero, exactly if it fits its storage with a terminator |
| ProtoDecoders.IStream.DecodePackedArray | myBowfolio/Pods/nanopb/pb_decode.c:424-453 | any bytes: gives the entries exactly if they use up their length and there is room for them |
| ProtoDecoders.IStream.DecodeField | myBowfolio/Pods/nanopb/pb_decode.c:406-480 | any bytes: what one record does to its field, packed or not |
| ProtoDecoders.IStream.DecodeSubmessage | myBowfolio/Pods/nanopb/pb_decode.c:1503-1525 | any bytes: a message is merged from the bytes of its length, and reading goes on behind them |
| ProtoDecoders.IStream.SkipField | myBowfolio/Pods/nanopb/pb_decode.c:278-332 | any bytes: for each wire type, succeeds exactly if the value is there as a whole, and then stands just behind it |
| ProtoDecoders.RequiredPresent | myBowfolio/Pods/nanopb/pb_decode.c:1030-1070 | the bitmap check passes exactly if every required field, up to the 64th, has been seen |
| ProtoDecoders.BitsComplete | myBowfolio/Pods/nanopb/pb_decode.c:994-1003 | all bits are set exactly if every required field that has one has been seen |
| ProtoProjections.KnownField | myBowfolio/Pods/nanopb/pb_decode.c:466-475 | a record sets its field; while a message is restored, no other member of its union is set |
| ProtoDecoders.IStream.Decode | myBowfolio/Pods/nanopb/pb_decode.c:925-1073 | any bytes: fails or gives exactly what they mean |
| Wire.EncodedVarint32 | myBowfolio/Pods/nanopb/pb_decode.c:187-247 | any encoded 32-bit number is read back |
| Wire.EncodedVarint64 | myBowfolio/Pods/nanopb/pb_decode.c:255-275 | any encoded 64-bit number is read back |
| ProtoProjections.ValueSpan | myBowfolio/Pods/nanopb/pb_encode.c:675-707 | every encoded value is as long as its wire type says: a reader that has only the tag lands just behind it |
| ProtoProjections.ValueParsed | myBowfolio/Pods/nanopb/pb_decode.c:60-81 | an encoded value of any type, at any depth, is read back as far as the receiver knows it |
| ProtoProjections.FieldParsed | myBowfolio/Pods/nanopb/pb_decode.c:406-480 | one record restores one more value of the field |
| ProtoProjections.RestParsed | myBowfolio/Pods/nanopb/pb_decode.c:942-1015 | the records that are left restore what is left of the fields the receiver knows; unknown ones change nothing |
| ProtoRoundTrips.Decode | myBowfolio/Pods/nanopb/pb_decode.c:1075-1087 | decoding gives what the bytes mean, whatever they are; nothing it gives does not fit its storage |
| ProtoRoundTrips.KnownIsRestored | myBowfolio/Pods/nanopb/pb_decode.c:974-986 | from the bytes of a sender with further fields, at any depth, a receiver restores the fields it knows |
| ProtoRoundTrips.TagsAloneSuffice | myBowfolio/Pods/nanopb/pb_decode.c:278-332 | a reader that knows no field lands exactly at the end of any encoded message |
| ProtoRoundTrips.Exchange | myBowfolio/Pods/nanopb/pb_decode.c:925-1087 | a message encoded with one descriptor is decoded with another that it extends; encoding fails exactly if a count or size is out of bounds or the buffer too small |
| ProtoRoundTrips.EncodeAndDecode | myBowfolio/Pods/nanopb/pb_decode.c:925-1087 | a message that fits its storage is restored from any buffer its encoding fits into, and encoding fails with a smaller one |
| Formats.LogInFourBlocks | myBowfolio/Pods/leveldb-library/db/log_writer.cc:36-84 | records of 1000, 97270 and 8000 bytes are cut into fragments of given types and lengths, with a trailer of six bytes |
| Formats.MaskedChecksum | myBowfolio/Pods/leveldb-library/util/crc32c.h:22-32 | a masked checksum in figures |
| Formats.BatchOfTwo | myBowfolio/Pods/leveldb-library/db/write_batch.cc:5-14 | a batch of two operations, byte by byte |
| Formats.EditRecords | myBowfolio/Pods/leveldb-library/db/version_edit.cc:14-86 | every kind of record of a version edit, byte by byte |
| Formats.TableFooter | myBowfolio/Pods/leveldb-library/table/format.cc:31-40 | a footer, byte by byte, with its magic number |
| Formats.TwoDoubles | myBowfolio/Pods/nanopb/pb_encode.c:669-707 | a message of two doubles, byte by byte, with their wire type |
| Formats.NegativeSeconds | myBowfolio/Pods/nanopb/pb_encode.c:608-628 | a negative number takes ten bytes, a default one none |

## Left out

- Everything under `myBowfolio/myBowfolio`: views, Firebase calls and list filters have no hard property.
- Operating-system code (`env_posix.cc`), the C binding, printing and `repair.cc`.
- The engine's runs use a table and a log as the sequences of their entries and a memtable as a sorted sequence; the modules on formats and structures are about those by themselves.
- The 1280 constants of the CRC tables, the hash function of the Bloom filter (it is arbitrary), the rounding of its probe count, and snappy compression.
- LRUCache: the circular lists and bucket chains are sequences and sets, so the pointers that link them are not modelled, nor are the sharding by hash and the deleters.
- Blocks of 4 GB and more, where offsets and sizes wrap: `BlockBuilder.Add`, `TableBuilder.Add` and `FilterBlockBuilder.Finish` ask for less.
- Damaged blocks in which the sum of two lengths wraps in 32 bits.
- Write errors of a table file, the block cache between a table and its blocks, and `ApproximateOffsetOf`.
- A table builder without a filter policy; a table read without one is modelled.
- Memory ordering of the skip list: a search sees stores in the order they are made.
- The class that holds a version edit is a value; decoding gives the new one.
- nanopb callbacks, extensions, pointer fields, arrays of fixed count, defaults other than zero, the offsets of fields in their structure, and error texts.
- nanopb varints longer than 36 bytes, where the 8-bit position wraps, and a tag of zero in a message type without fields.
- Invalid field types and data sizes in nanopb descriptors: descriptors are well formed, as its generator writes them.
- Reading a log from an offset other than zero, and resynchronisation: the engine always reads logs from the start.
- Log files reused across a reopening (`reuse_logs`).
- A failed or torn append to a log that later records follow: the writer goes on as if the block had grown by the whole fragment, and what a reader makes of the records behind it is not modelled. After a failed sync the batch stays in flight until the crash, though the engine also publishes its sequence numbers.
- Compaction scores, seek statistics and read sampling: they decide only when a compaction runs.
- The clean-up of a failed compaction: its outputs stay pending, and nothing is deleted after an error.
