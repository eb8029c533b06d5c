# Models of the eMuleBB test harness

The test harness drives an eMule client written in Rust beside the original MFC client and compares the two.
Around its I/O it has a few small cores whose results other code relies on without looking. This project models
those cores in Dafny and proves what they promise, for every input, every file content and every run.

- **Metadata seeding** (`PieceArithmetic`, `Hex`, `RowTables`, `ShareSeeding`, `SeedAgreement`, `SeedMeaning`,
  `MetadataStore`): the phased bulk writer against the single-row writer over nine tables, with row ids and
  last-writer-wins upserts, and what every table then holds.
- **Shared roots** (`SharedRoots`): collapsing a list of shared directories into a few recursive roots.
- **MET and DAT files** (`MetFormat`, `KnownMetImport`, `FileAccess`, `KnownMetDump`, `KnownMetAgreement`,
  `KnownMetMeaning`, `Known2`, `ImportSelection`, `ImportMeaning`, `ServerMet`, `ServerMeaning`, `KadNodes`): two
  independent parsers of one format, a parser that skips what is not wanted, a printer and its parser, a parser whose
  record size is a floor division, and what each of them takes from which bytes.
- **INI editing** (`TextLines`, `IniEditor`, `IniMeaning`): upsert and remove in texts with duplicate sections and keys.
- **Trace comparison** (`PacketDiff`, `TraceDiff`, `TraceMeaning`, `EventDiff`, `KadCoverage`, `Conformance`,
  `ConformanceMeaning`): what is conserved by the accounting, and how the verdicts imply one another.
- **Stateful runs** (`Utf8`, `LogScan`, `LogMeaning`, `LanPool`): the incremental log scanner against one scan, and the
  pool of secondary LAN addresses whatever its commands do.

What works step by step in the source is a method, or a class with methods, proved against a function of
its inputs or of its old state; the lemmas are about that function, and compare it with an independent one: the plain
layout of a format, the other parser, the other writer, a multiset, a set of records, one scan of a whole file.
The modules named `...Meaning` say what those functions come to in terms of the inputs alone: manifests, bytes and tag
numbers, lines of a text, packets of a trace, fields of a record.
`Basics` and `Outcomes` hold what several models share. `dafny verify dfyconfig.toml` checks everything.

Four results say exactly how far a promise goes, because it does not hold without a condition. Each comes with the
condition, told of the inputs, and with an input that fails it:

- The two writers always agree on the tables with one row per key. On part hashes, ranges and pieces they agree exactly
  under the conditions of `SeedAgreement.WritersAgreeIff`; `SeedAgreement.ShrinkingBatchDiffers` is a batch on which
  they do not. The bulk writer moreover needs file hashes in lower case (`MetadataStore.Store.SeedManifestsFast`).
- A filtered read of `known2_64.met` accepts, besides the well-formed files, exactly those cut short in a last, unwanted
  record (`Known2.FilteredImportIsRestriction`); `Known2.TruncatedFileMayPass` is one.
- Removing a setting undoes an upsert exactly when the section was there and the key was not
  (`IniEditor.RemoveUndoesUpsert`); `IniEditor.RemoveMayNotUndo` has two texts where it does not.
- The log scanner's cap on matches loses hits of a file for good exactly when some scan stops at that file with more
  matches than the cap, over any schedule of scans of any files (`LogScan.CapLosesTheRest`, `LogScan.FinalHitsIff`);
  `LogScan.SecondHitIsLost` is such a log.

## Model

| member | source | states |
|---|---|---|
| SeedAgreement.BatchRefinesRows | emule_test_harness/rust_metadata.py:642-812 | the phased bulk writer leaves the same tables as looping the single-row writer without piece rows, whatever keys collide, when manifests of one file agree and nothing is recorded yet for the files of the batch; ranges as a set |
| SeedAgreement.WritersAgreeIff | emule_test_harness/rust_metadata.py:796-812 | for any batch and any database whose ids are in order, exactly which databases and batches leave part hashes, pieces and ranges the same in both writers: no earlier hash list of a file, in the batch or recorded, is longer than its last one; no piece is recorded; every range of a file is its last one, or, row by row, no file comes twice or has a range |
| SeedAgreement.ShrinkingBatchDiffers | emule_test_harness/rust_metadata.py:796-800 | a batch that both writers take, of one file with two part hashes and then with one, on which they leave different MD4 tables |
| ShareSeeding.KeyedTablesAgree | emule_test_harness/rust_metadata.py:664-795 | for any batch and any starting state, without conditions, paths, known files, transfers, sources and scan failures end up the same in both writers, row ids and first-seen times included |
| ShareSeeding.ChildTablesAgreeIff | emule_test_harness/rust_metadata.py:796-812 | the same told with the ids of the finished tables: part hashes agree exactly when the last list of a file overwrites every earlier one, pieces when none is stale, ranges when no file has two different ones; for any database |
| ShareSeeding.SeedRowsParents | emule_test_harness/rust_metadata.py:883-938 | interleaving the writes manifest by manifest leaves the path and known-file tables that writing each table in one go leaves |
| ShareSeeding.SeedRowsChildren | emule_test_harness/rust_metadata.py:939-1006 | the same for the tables that refer to those two by row id: ids read early are the ids read late |
| RowTables.ReplaceIsMergeIff | emule_test_harness/rust_metadata.py:796-805 | deleting a file's hash rows before each insertion and upserting over them agree exactly when no longer, older list survives |
| RowTables.ReplaceRangesIsAppendIff | emule_test_harness/rust_metadata.py:806-812 | deleting before inserting ranges and only inserting them leave the same set exactly when no file has two different ranges |
| RowTables.SameRangesIffNew | emule_test_harness/rust_metadata.py:806-812 | as rows rather than as a set, the two agree exactly when every range is for a file without one, otherwise the bulk writer leaves more rows |
| MetadataStore.Store.SeedManifest | emule_test_harness/rust_metadata.py:861-1006 | the single-row writer succeeds exactly when every hash of the manifest is hexadecimal, and then does to all tables what the row-by-row specification says |
| MetadataStore.Store.UpsertPaths | emule_test_harness/rust_metadata.py:659-678 | the first phase writes one path per manifest and nothing else |
| MetadataStore.Store.UpsertKnown | emule_test_harness/rust_metadata.py:687-741 | the second phase fails exactly when a hash or root of some manifest is not hexadecimal |
| MetadataStore.Store.SeedChildren | emule_test_harness/rust_metadata.py:742-812 | the remaining phases fail exactly when a file hash is not spelled in lower case or a part hash is not hexadecimal |
| MetadataStore.Store.SeedManifestsFast | emule_test_harness/rust_metadata.py:642-812 | the bulk writer succeeds exactly when every hash decodes and every file hash is spelled in lower case, and then does what the batch specification says |
| MetadataStore.Store.SeedShareInPlaceManifests | emule_test_harness/rust_metadata.py:617-639 | either every manifest is seeded or the database is as before; the flag chooses the writer, and what either writer then stores is `SeedMeaning.SeedingStores` |
| SeedMeaning.SeedingStores | emule_test_harness/rust_metadata.py:642-1006 | whichever writer seeds, in any database whose rows have different ids: the row of every file of the batch holds the size, name, part size and count, flags, AICH root and upload statistics of the last manifest with that hash, and keeps the id, first-seen time, comment and rating that it had; its transfer is complete, not removed, in the directory named by that hash, with the path and the time of that manifest; the path of every manifest has the display path of the last one with that normalized key, and its source row the size, time and file of that one; rows of other hashes and paths are as before |
| SeedMeaning.KnownFilesAre | emule_test_harness/rust_metadata.py:722-738 | after any sequence of known-file upserts a hash has the facts of the last manifest of that hash, or, when there is none, exactly the row it had |
| SeedMeaning.RowsStoreChildren | emule_test_harness/rust_metadata.py:939-1006 | row by row, every file of the batch ends up with exactly the MD4 and AICH part hashes and the verified range of its last manifest, and with one verified piece for each part when piece rows are asked for |
| SeedMeaning.BatchStoresChildren | emule_test_harness/rust_metadata.py:796-812 | in bulk, the hash lists of a file begin with those of its last manifest, and the range of that manifest is among its ranges |
| SeedMeaning.ChildrenOfOthersAreKept | emule_test_harness/rust_metadata.py:796-812 | hashes and ranges of a file that is in no manifest are as before, whichever writer seeds |
| MetadataStore.KnownIdsFind | emule_test_harness/rust_metadata.py:742-746 | the table read back by hexadecimal spelling finds a stored hash exactly under its lower-case spelling, and then with its own id |
| ShareSeeding.PiecesCoverRange | emule_test_harness/rust_metadata.py:981-1006 | the bytes of all piece rows of a completed file add up to its verified range |
| PieceArithmetic.PiecesTileFile | emule_test_harness/rust_metadata.py:1009-1011 | every piece length is between 1 and the piece size, and together they are the file size |
| PieceArithmetic.PieceLengthSumIs | emule_test_harness/rust_metadata.py:1009-1011 | the first k pieces hold min(k * piece size, file size) bytes |
| PieceArithmetic.HashCountsAgainstParts | emule_test_harness/mfc_known_met.py:637-647 | the MD4 count is one more than the part count exactly on nonzero multiples of the part size, equal on other sizes above it and zero below; the AICH count is the part count above one part and zero otherwise |
| Hex.FromHexToHex | emule_test_harness/rust_metadata.py:742-746 | reading a hash back from the lower-case spelling it is looked up by gives the same bytes |
| SharedRoots.CollapseSharedRoots | emule_test_harness/mfc_profile_import.py:204-230 | every listed root lies at or under exactly one result; no result lies under another; each result that is not listed can be read, has two different child entries that are listed, and has no unreadable and no unlisted directory below it; every candidate that qualifies is covered; the results come in the order of the first listed root under each, each in the last spelling that its key has among the listed roots and their parents; for any fold that keeps the separators of the volumes of the listed roots |
| SharedRoots.DirectorySubtreeIsFullyListed | emule_test_harness/mfc_profile_import.py:233-266 | the stack walk answers exactly whether the directory exists and can be read, has two child entries at different places that are both listed, can be read all the way down, and has all keys of the directories below it in the listed set |
| SharedRoots.AllBelowListedMeans | emule_test_harness/mfc_profile_import.py:233-266 | checking child by child says that the whole tree can be read and that the set of all its directories is a subset of the listed ones |
| SharedRoots.UnlistedRootMeans | emule_test_harness/mfc_profile_import.py:233-266 | a key may be selected exactly when it is listed, or has two listed child entries, everything below it can be read and everything below it is listed |
| SharedRoots.LocateMeans | emule_test_harness/mfc_profile_import.py:233-266 | the directory scanned for a candidate is found name by name from its volume, as keys compare |
| SharedRoots.GatherCandidates | emule_test_harness/mfc_profile_import.py:214-218 | the candidates are the listed roots and their parents, each key once, with a display that folds to it |
| SharedRoots.SelectRoots | emule_test_harness/mfc_profile_import.py:219-228 | taking candidates shallowest first leaves an antichain that covers every candidate that qualifies |
| SharedRoots.FewerSeparatorsAbove | emule_test_harness/mfc_profile_import.py:219-222 | a key above another always sorts before it, by the number of separators in its display |
| SharedRoots.SlashFoldKeepsVolume | emule_test_harness/mfc_profile_import.py:282-283 | a fold that turns both slashes and nothing else into a separator, as `os.path.normcase` does on Windows, keeps the separators of every volume spelled without forward slashes, as an absolute path is |
| SharedRoots.PartitionsIs | emule_test_harness/mfc_profile_import.py:223-228 | from antichain and cover: each listed root lies under one selected root only |
| SharedRoots.OrderIsStrict | emule_test_harness/mfc_profile_import.py:229 | the final sort key exists for every selected root and no two share it |
| SharedRoots.FirstListedIsLeast | emule_test_harness/mfc_profile_import.py:208-229 | the sort key of a root is the least index under which some listed root at or below it is remembered, a root listed twice being remembered under its last index |
| SharedRoots.SpellingsAreLast | emule_test_harness/mfc_profile_import.py:214-218 | a candidate is displayed as the last listed root, or parent of one, that has its key |
| KnownMetAgreement.ParsersAgree | emule_test_harness/mfc_known_met.py:115-126 | on every file the importer accepts, the dumper accepts too, has no trailing bytes and shows as many records with the same times, file hashes and part hashes, in the same order |
| KnownMetAgreement.ImporterAcceptsIff | emule_test_harness/emule_met_dump.py:285-313 | the importer accepts exactly the files that the dumper accepts without trailing bytes and whose texts decode and AICH blobs fit |
| KnownMetAgreement.ImportReadsLayoutTag | emule_test_harness/mfc_known_met.py:728-761 | the importer takes a tag exactly when the layout does and its texts decode, and stops at the same byte |
| KnownMetAgreement.DumpReadsLayoutTag | emule_test_harness/emule_met_dump.py:479-515 | the dumper takes a tag exactly when the layout does, and stops at the same byte |
| KnownMetAgreement.ImportReadsLayoutRecord | emule_test_harness/mfc_known_met.py:667-700 | the importer takes a record exactly when the layout does and the record is strict, and makes its entry of the raw time, hashes and tags of the layout |
| KnownMetAgreement.DumpReadsLayoutRecord | emule_test_harness/emule_met_dump.py:285-313 | the dumper takes a record exactly when the layout does, and shows its time, hash, part hashes and every tag |
| KnownMetMeaning.ImportedFileMeans | emule_test_harness/mfc_known_met.py:115-126 | an accepted file is read to its end and gives one entry for each record, in order, with every field as `KnownMetMeaning.EntryIs` tells it |
| KnownMetMeaning.EntryIs | emule_test_harness/mfc_known_met.py:667-725 | of the raw tags of a record: the name is the first text 0x01; the size is the first integer 0x02, and missing exactly when there is none; root and hashes are those of blob 0x35, or else the root is read from text 0x27; uploaded bytes are 2^32 times integer 0x54 plus integer 0x50 for a low word below 2^32, and their bitwise union otherwise; requests and accepts are 0x51 and 0x52, nought when missing; the last request is 1000 times integer "LastRequest"; priority 0x19 is automatic for 5, named for 4, 0, 2 and 3, and normal otherwise |
| KnownMetMeaning.FirstIntIs | emule_test_harness/mfc_known_met.py:775-779 | an integer field is that of the first tag of its name whose type is 3, 5, 8, 9 or 11; it is missing exactly when there is no such tag |
| KnownMetMeaning.BitOrMeans | emule_test_harness/mfc_known_met.py:682 | a bit of the joined words is set exactly when it is set in one of them |
| KnownMetMeaning.StrictIs | emule_test_harness/mfc_known_met.py:764-791 | what the importer asks beyond the layout: texts behind a byte order mark are UTF-8, and blob 0x35, if there and not empty, has at least 22 bytes and is 22 + 20 * count bytes long |
| KnownMetMeaning.LayoutKnownMetIs | emule_test_harness/mfc_known_met.py:115-126 | a file starts with byte 14 or 15 and a count of four bytes, and its records lie one after the other from byte 5 |
| KnownMetMeaning.LayoutRecordIs | emule_test_harness/mfc_known_met.py:667-672 | where a record has its time, its hash, its counted part hashes and its counted tags |
| KnownMetMeaning.LayoutTagIs | emule_test_harness/mfc_known_met.py:728-761 | where a tag has its name and its payload, for each type byte |
| KnownMetMeaning.DumpedFileMeans | emule_test_harness/emule_met_dump.py:285-313 | the dumper shows the header byte, every record with its index and the position it starts at, and every tag with its type and its decoded value, and counts the bytes behind the last record |
| MetFormat.LittleEndianIs | emule_test_harness/mfc_known_met.py:102-112 | integers of one, two and four bytes have the least significant byte first |
| MetFormat.ManyRefines | emule_test_harness/mfc_known_met.py:115-126 | reading n items in a loop accepts and stops as the layout of n items does, if that holds of one item |
| KnownMetImport.ParseKnownMet | emule_test_harness/mfc_known_met.py:115-126 | the cursor loop over records accepts and returns what the format function of the bytes says, rejecting any byte left over; each field of what it returns is told of the raw tags by `KnownMetMeaning.ImportedFileMeans` |
| KnownMetImport.BinaryReader.Read | emule_test_harness/mfc_known_met.py:95-100 | a read takes exactly the next bytes, or raises and leaves the cursor where it was |
| KnownMetImport.BinaryReader.ReadKnownMetRecord | emule_test_harness/mfc_known_met.py:667-700 | reading a record moves the cursor to where the format function says the record ends |
| KnownMetDump.DumpKnownMet | emule_test_harness/emule_met_dump.py:285-313 | the file-cursor loop accepts and shows what the dump function of the bytes says, counting the bytes left over |
| Known2.UnfilteredImportIsLayout | emule_test_harness/mfc_known_met.py:129-161 | without a filter the importer accepts exactly the files whose records tile them, and its map is the last-wins fold of those records |
| Known2.ImportAcceptsIff | emule_test_harness/mfc_known_met.py:141-161 | the same from any offset and for any filter: accepted are well-formed rests and those cut short in an unwanted record, and the map is the last-wins fold of the wanted whole records |
| Known2.FilteredImportIsRestriction | emule_test_harness/mfc_known_met.py:129-161 | the filtered importer accepts exactly the well-formed files and those cut short inside the hashes of a last, unwanted record, and no file is both; of the former it keeps the full map restricted to the wanted roots, of the latter the same of the whole records before the cut |
| Known2.TruncatedFileMayPass | emule_test_harness/mfc_known_met.py:145-159 | one such file: 25 bytes, one record that announces a hash and ends before it |
| Known2.RecordsTile | emule_test_harness/emule_met_dump.py:316-356 | behind a header byte of two the records follow one another from offset 1 to the end of the file, 24 + 20 * count bytes each; the root, the count and every hash are the bytes at their places |
| Known2.TilingIsAccepted | emule_test_harness/emule_met_dump.py:316-356 | conversely, wherever counts lead from record to record up to the end of the file, the layout takes it with that many records |
| Known2.LastWinsMeans | emule_test_harness/mfc_known_met.py:153-157 | the map has exactly the roots of the records, each with the hashes of its last record |
| Known2.DumpKnown2 | emule_test_harness/emule_met_dump.py:316-356 | in summary and in full mode the dumper accepts exactly the well-formed files and shows their records, offsets and total leaf hashes, with nothing left over |
| Known2.ParseKnown264 | emule_test_harness/mfc_known_met.py:129-161 | the cursor loop, with its seek past unwanted payloads, returns what the format function of the bytes says |
| ImportSelection.CacheImportLosesNothing | emule_test_harness/mfc_known_met.py:182-245 | with a well-formed known2 file, reading only the wanted roots gives the same rows, AICH hash sets and counts as the full map |
| ImportSelection.PathImportLosesNothing | emule_test_harness/mfc_known_met.py:290-377 | the same for the import by path |
| ImportSelection.CacheCountsOnce | emule_test_harness/mfc_known_met.py:199-245 | every record is imported or counted under exactly one skip reason |
| ImportSelection.PathCountsOnce | emule_test_harness/mfc_known_met.py:307-377 | every record is matched or counted under exactly one skip reason |
| ImportSelection.FilterKeepsVerdict | emule_test_harness/mfc_known_met.py:650-664 | a record whose root is wanted gets the same AICH hash set and the same verdict from the restricted map |
| ImportSelection.SelectCacheRows | emule_test_harness/mfc_known_met.py:199-245 | the loop with its counters computes the rows and counts that the verdicts of the records call for |
| ImportSelection.SelectPathRows | emule_test_harness/mfc_known_met.py:307-377 | the same by path: one row per matching path, none on a dry run |
| ImportSelection.IndexCandidates | emule_test_harness/mfc_known_met.py:279-288 | looking a key up in the index gives all candidates with that key, in order |
| ImportSelection.GatherWantedOnDisk | emule_test_harness/mfc_known_met.py:290-300 | the wanted roots are those of the records that need one and match a file on disk |
| ImportMeaning.CacheVerdictIs | emule_test_harness/mfc_known_met.py:206-221 | an entry is imported without a path exactly when it has a name, a nonzero size and time, as many MD4 part hashes as its size in parts of 9728000 asks for, and, if it has an AICH root, as many AICH hashes as parts, its own or else those of its root; each skip reason is told of the same fields |
| ImportMeaning.PathVerdictIs | emule_test_harness/mfc_known_met.py:319-335 | the same by path, where a file on disk must have the same folded name, size and time in seconds, and size and time may be zero |
| ImportMeaning.NeedsRootIs | emule_test_harness/mfc_known_met.py:182-191 | a root is wanted for exactly the entries above one part that have a name, the right MD4 count and no AICH hashes of their own |
| ImportMeaning.CacheRowsAre | emule_test_harness/mfc_known_met.py:229-245 | the rows are those of the accepted entries in order, each with the hashes it was accepted with |
| ImportMeaning.PathRowsAre | emule_test_harness/mfc_known_met.py:358-377 | there is one manifest for each accepted entry and each file that fits it, entry by entry and file by file, and no other |
| ImportMeaning.CacheCountsAre | emule_test_harness/mfc_known_met.py:198-228 | each count is the number of the entries with the property it stands for |
| ImportMeaning.PathCountsAre | emule_test_harness/mfc_known_met.py:307-357 | the same by path |
| ImportMeaning.StatsPathsAre | emule_test_harness/mfc_known_met.py:349-357 | the paths counted for statistics are the manifests whose entries have any |
| ImportSelection.ImportCache | emule_test_harness/mfc_known_met.py:164-258 | the import fails exactly when the known2 file cannot be read for the wanted roots |
| ImportSelection.ImportHashes | emule_test_harness/mfc_known_met.py:261-400 | the same for the import by path |
| ServerMet.AsciiRoundTrip | emule_test_harness/goed2k.py:187-213 | for every nonzero address, port 1 to 65535 and ASCII name shorter than 65536 bytes, parsing what was built gives exactly that one server |
| ServerMet.ParseWhatWasBuilt | emule_test_harness/mfc_profile_import.py:143-177 | the same for any name bytes: a zero address or port gives no server, a name that does not decode raises, and nothing is left over |
| ServerMet.BuildServerMet | emule_test_harness/goed2k.py:187-213 | building raises exactly when an octet, the port or the name length is out of range, and else writes the five fields in order |
| ServerMet.ParseServerMet | emule_test_harness/mfc_profile_import.py:143-177 | the cursor loop returns what the format function of the bytes says |
| ServerMeaning.ParsedServersMean | emule_test_harness/mfc_profile_import.py:143-177 | an accepted file, of any number of servers: behind byte 14 or 224 and a count of at most 1000000 the servers lie one after the other up to the end; returned, in order, are exactly those with a nonzero address and port, each with its four address bytes, its port and its last text tag 0x01 as name |
| ServerMeaning.ServerReadsLayout | emule_test_harness/mfc_profile_import.py:153-163 | a server is read exactly when its layout is and its texts decode |
| KadNodes.ParseNodesDat | emule_test_harness/kad_nodes.py:69-124 | the loop returns the ordered filter of exactly `count` records, and raises where the header does |
| KadNodes.ReadContacts | emule_test_harness/kad_nodes.py:110-124 | every record read lies inside the data, so the early exit never fires |
| KadNodes.HeaderMeans | emule_test_harness/kad_nodes.py:78-103 | for each form of header, at which byte the count and the records are |
| KadNodes.ContactsMean | emule_test_harness/kad_nodes.py:102-124 | contacts are read for counts of one to 500000 and records of at least 25 bytes, and otherwise there are none |
| KadNodes.RoutableContactsAre | emule_test_harness/kad_nodes.py:110-124 | of each record the address is bytes 19 to 16, the UDP port bytes 20 and 21 and the TCP port bytes 22 and 23; left out are exactly the records with a zero address, a zero UDP port or an address that is not public |
| KadNodes.RaisesIff | emule_test_harness/kad_nodes.py:78-103 | parsing raises exactly on payloads of at least eight bytes that end before the count their header calls for |
| KadNodes.LeftoverIsSmall | emule_test_harness/kad_nodes.py:105-112 | fewer than `count` bytes are left over behind the records |
| KadNodes.ZeroAddress | emule_test_harness/kad_nodes.py:114-120 | an address is zero in its stored byte order exactly when it is zero reversed |
| KadNodes.BootstrapEndpoints | emule_test_harness/kad_nodes.py:147-161 | the endpoints are the first `limit` distinct ones; a limit below one still lets one through |
| KadNodes.DistinctMeans | emule_test_harness/kad_nodes.py:147-161 | no endpoint repeats and every contact's endpoint is among them |
| KadNodes.DistinctInFirstOrder | emule_test_harness/kad_nodes.py:147-161 | endpoints come in the order in which they first appear |
| IniEditor.UpsertSets | emule_test_harness/ini.py:63-100 | after an upsert the key occurs in a matching section, and every occurrence in any matching section holds the value |
| IniEditor.UpsertKeepsOthers | emule_test_harness/ini.py:63-100 | every other pair of section and key is looked up as before, with duplicates and their order |
| IniMeaning.UpsertIs | emule_test_harness/ini.py:63-100 | exactly which lines an upsert writes: every line of the key in a matching section is rewritten in its place, however often it occurs, no other line changes, and one line is added, at the end of the first matching section when that one lacks the key, or in a new section behind a blank line when there is none |
| IniMeaning.StripIs | emule_test_harness/ini.py:74-85 | stripping takes exactly the blanks off both ends |
| IniMeaning.CurrentIs | emule_test_harness/ini.py:73-83 | a line belongs to the section of the last header before it |
| IniEditor.UpsertTextIdempotent | emule_test_harness/ini.py:63-100 | a second upsert leaves the whole text as it is |
| IniEditor.RemoveUndoesUpsert | emule_test_harness/ini.py:103-122 | removing after an upsert gives back the original lines exactly when the section existed and the key did not |
| IniEditor.RemoveMayNotUndo | emule_test_harness/ini.py:63-122 | two texts that remove does not bring back: one where the key stood already, and an empty one without the section |
| IniMeaning.RemoveIs | emule_test_harness/ini.py:103-122 | the lines kept are, in order, all but those of the key in a matching section |
| IniEditor.UpsertIniSectionValue | emule_test_harness/ini.py:63-100 | the loop with its three flags computes the fold that the lemmas speak of, and writes CRLF lines |
| IniEditor.RemoveIniSectionValue | emule_test_harness/ini.py:103-122 | the loop drops exactly the lines of the key in matching sections |
| IniEditor.ReadBack | emule_test_harness/ini.py:63-100 | splitting the written text gives the lines that were written |
| TextLines.SplitCrlfText | emule_test_harness/ini.py:63-122 | splitting what was joined with CRLF gives the lines back |
| TextLines.SplitAtBreak | emule_test_harness/ini.py:67 | a line ends at CR LF or at any of the ten characters that `str.splitlines` breaks at, and nowhere else; what follows splits on its own |
| TextLines.SplitLinesConcat | emule_test_harness/live_process_monitor.py:288-289 | a text cut behind a line feed splits piecewise |
| PacketDiff.GroupConserves | emule_test_harness/packet_trace_diff.py:109-151 | in every group matched, mismatched and one-sided packets make up each side, and what is reported of a side is exactly its packets outside equal blocks |
| PacketDiff.MismatchesShareOpcode | emule_test_harness/packet_trace_diff.py:131-148 | a payload mismatch pairs two packets of equal marker and opcode, and there is one for each offset of a replaced block where these agree |
| PacketDiff.CleanMeansSame | emule_test_harness/packet_trace_diff.py:109-151 | a clean group has the same wire keys on both sides in the same order |
| PacketDiff.CleanIffOnlyEqual | emule_test_harness/packet_trace_diff.py:109-151 | a group is clean exactly when its edit script has nothing outside equal blocks |
| PacketDiff.SameKeysSamePackets | emule_test_harness/packet_trace_diff.py:72-79 | two sequences of wire keys are equal exactly when the packets have, place by place, equal markers, opcodes and payloads, a missing payload being an empty one |
| PacketDiff.OneOpcodeCounts | emule_test_harness/packet_trace_diff.py:134-137 | the number of such offsets is the size of the set of offsets with equal marker and opcode |
| PacketDiff.DiffOneGroup | emule_test_harness/packet_trace_diff.py:109-151 | the loops over blocks and pairs compute the accounting that the lemmas speak of |
| TraceDiff.DiffTraces | emule_test_harness/packet_trace_diff.py:154-210 | totals conserve both traces; a clean report covers all opcodes, and covering all covers the oracle's; a clean report means that per channel and direction both sides have as many packets, and at each place equal marker, opcode and payload, a missing payload being an empty one |
| TraceDiff.DiffGroups | emule_test_harness/packet_trace_diff.py:154-210 | the totals over all groups make up both traces |
| TraceDiff.OkMeansSameWire | emule_test_harness/packet_trace_diff.py:154-210 | when every listed group is clean, every group has the same packets on both sides, place by place |
| TraceDiff.GroupsPartition | emule_test_harness/packet_trace_diff.py:169-175 | each packet is in exactly one of the listed groups |
| TraceMeaning.InGroupIs | emule_test_harness/packet_trace_diff.py:169-175 | a group holds exactly the packets of the trace that belong to it, in their order |
| TraceMeaning.SameGroupIff | emule_test_harness/packet_trace_diff.py:28-47 | two packets share a group exactly when their directions are equal and both or neither are on the server channel, and on the Kad channel |
| TraceDiff.OpcodeCoverage | emule_test_harness/packet_trace_diff.py:225-283 | both coverage verdicts are set equality and inclusion of opcodes in every channel and direction, and the counts are those of the group |
| TraceMeaning.UsesAllOf | emule_test_harness/packet_trace_diff.py:213-283 | one side uses all opcodes of the other exactly when each of its packets has one of the same marker, nought standing for none, and opcode in the same group |
| TraceMeaning.CountsAre | emule_test_harness/packet_trace_diff.py:245-249 | the count kept for an opcode is the number of the packets with it |
| TraceDiff.DiffPacketFamily | emule_test_harness/diag_event_diff.py:190-270 | the same accounting over the wire packets of one family, by direction, and the same meaning of a clean report |
| TraceMeaning.WirePacketsAre | emule_test_harness/diag_event_diff.py:185-205 | the packets of a family are its events that were sent or received and carry an opcode, in order, with the decoded payload for Kad and the raw one otherwise |
| EventDiff.DiffEventFamily | emule_test_harness/diag_event_diff.py:308-343 | `matched` is the size of the multiset intersection of identities, the leftovers are the two differences, both sides add up, and `ok` is inclusion of the oracle's multiset |
| EventDiff.IntersectionCounts | emule_test_harness/diag_event_diff.py:308-343 | that size is the sum over identities of the smaller count |
| EventDiff.OrderDoesNotMatter | emule_test_harness/diag_event_diff.py:308-343 | reordering a trace does not change the multiset that totals and verdict depend on |
| KadCoverage.KadOpcodeCoverage | emule_test_harness/packet_trace_diff.py:404-541 | both verdicts mean what they say of the records; every count, gap list, credit and per-direction table is that of the records |
| KadCoverage.CountClient | emule_test_harness/packet_trace_diff.py:446-460 | one pass counts all opcodes of a client, in all and by direction, and leaves the other client's counts alone |
| KadCoverage.OpcodeIs | emule_test_harness/packet_trace_diff.py:377-390 | an opcode is the one among the keys, else in the body, else on the record, and a text that spells a number is that number |
| KadCoverage.SentIs | emule_test_harness/packet_trace_diff.py:393-395 | a packet was sent when its record says so, or says nothing and its body does |
| KadCoverage.RelabellingRust | emule_test_harness/packet_trace_diff.py:446-533 | relabelling the directions of rust records changes no count and no verdict |
| KadCoverage.MoreRustKeepsOracleOk | emule_test_harness/packet_trace_diff.py:471-534 | more rust or supplementary records never fail a passing verdict |
| KadCoverage.ReceivedIsNoise | emule_test_harness/packet_trace_diff.py:456-534 | packets that MFC did not send never change the oracle verdict |
| KadCoverage.SupplementaryAddsOnlyNew | emule_test_harness/packet_trace_diff.py:462-475 | supplementary records of opcodes in the primary stream change no count and no verdict |
| KadCoverage.StrictImpliesOracle | emule_test_harness/packet_trace_diff.py:532-534 | the strict verdict implies the oracle verdict |
| KadCoverage.DirectionsAddUp | emule_test_harness/packet_trace_diff.py:452-455 | the per-direction counts of an opcode add up to its combined count |
| Conformance.SchemaAudit | emule_test_harness/diag_event_diff.py:501-581 | one row per event of either side; `ok` is equality of schemas, `conformant` is that rust carries every required oracle key of every shared event, and each violation names exactly the missing keys |
| Conformance.FamilyConformance | emule_test_harness/diag_event_diff.py:584-640 | the gate's verdict is the audit's, as a whole and family by family; event types are counted once each and one-sided events are listed |
| ConformanceMeaning.ConformantIs | emule_test_harness/diag_event_diff.py:501-581 | the verdict on record fields: for every family, event and body key, if both sides have a record of the event and an oracle one carries the key, then a rust one does, or the key is one of eight that rust may lack; packet records count when sent or received and with an opcode |
| ConformanceMeaning.ConformantInIs | emule_test_harness/diag_event_diff.py:584-640 | the same for one family |
| Conformance.Index | emule_test_harness/diag_event_diff.py:514-528 | the index lists the events emitted, each with the body keys seen and its count |
| ConformanceMeaning.CountIsPlaces | emule_test_harness/diag_event_diff.py:514-528 | the count of an event is the number of the records of that event |
| Conformance.WholeFromFamilies | emule_test_harness/diag_event_diff.py:629-640 | the traces are conformant exactly when each family present is |
| Conformance.ViolationsMean | emule_test_harness/diag_event_diff.py:558-572 | there is no violation, overall or of a family, exactly when no shared row lacks a required key |
| Conformance.ViolationsName | emule_test_harness/diag_event_diff.py:558-570 | a violation is of a shared event and names exactly the required keys rust lacks |
| Conformance.TypesAreEvents | emule_test_harness/diag_event_diff.py:605-624 | counting rows counts distinct events |
| Conformance.SameSchemaIsConformant | emule_test_harness/diag_event_diff.py:552-572 | the strict verdict implies conformance |
| Conformance.OneMoreRustRecord | emule_test_harness/diag_event_diff.py:514-572 | one more rust record of an event already emitted never breaks conformance; of a new event it keeps it exactly when the record carries the required keys |
| Conformance.MoreRustKeepsConformance | emule_test_harness/diag_event_diff.py:514-572 | any number of further rust records of events already emitted never break conformance |
| Conformance.FewerOracleKeepsConformance | emule_test_harness/diag_event_diff.py:514-572 | fewer oracle records never break conformance |
| LogScan.IncrementalIsOneScan | emule_test_harness/live_process_monitor.py:260-303 | over any schedule of scans of files that grow by whole lines, with the cap never reached, every file that some scan sees to its end has its offset at that end, each line looked at once and in order, and the hits of one scan of its final content, whatever other files are scanned before and after |
| LogScan.FinalHitsIff | emule_test_harness/live_process_monitor.py:260-303 | the same without a condition on the cap: the hits are those of one scan of the final content exactly when no scan drops matches of the file |
| LogScan.IncrementalHitsIff | emule_test_harness/live_process_monitor.py:260-303 | the same for a file that has not been read to its end yet, with the part read so far |
| LogScan.OffsetOnlyGrows | emule_test_harness/live_process_monitor.py:272-285 | the stored offset of a growing file never moves back |
| LogScan.SeenToTheEnd | emule_test_harness/live_process_monitor.py:272-285 | once a scan has seen a file to its end the offset stays there, whatever is scanned after |
| LogScan.PollReaches | emule_test_harness/live_process_monitor.py:270-303 | a scan moves the offsets of exactly the files up to the one that brings it to the cap, and returns their first matches up to the cap |
| LogScan.OneFileDropsIff | emule_test_harness/live_process_monitor.py:288-302 | a scan of one file drops matches exactly when its new lines hold more hits than the cap |
| LogScan.SecondHitIsLost | emule_test_harness/live_process_monitor.py:288-302 | a log of two hits, a cap of one: two scans report one hit, one scan of the content finds two |
| LogScan.ReadToTheEnd | emule_test_harness/live_process_monitor.py:277-285 | when the scan looked at last sees the whole of a file, its offset is the end of the file |
| LogScan.CapKeepsFirst | emule_test_harness/live_process_monitor.py:289-303 | a scan returns the first matches up to the cap of what a scan without a cap finds, and stops early exactly when there are that many |
| LogScan.CapLosesTheRest | emule_test_harness/live_process_monitor.py:282-302 | whatever the schedule, the files and the cap: the reported hits of a file are all hits of the lines looked at exactly when no scan stops at that file with more matches than the cap; otherwise they are fewer, and the offsets have moved past the lost ones |
| LogScan.OneFileTwice | emule_test_harness/live_process_monitor.py:271-303 | one scan of a whole file returns its first hits up to the cap, and a second scan adds nothing |
| LogScan.RunIsScan | emule_test_harness/live_process_monitor.py:260-303 | without an early stop, many scans do what one pass over all their files does |
| LogScan.CatchUp | emule_test_harness/live_process_monitor.py:270-285 | after any history the stored offset ends a line, and the lines looked at are those of the bytes before it |
| LogScan.HitsOfExamined | emule_test_harness/live_process_monitor.py:289-300 | the matches reported for a file are the first-pattern hits of the lines looked at, in order |
| LogScan.ScanLogMarkers | emule_test_harness/live_process_monitor.py:260-303 | the nested loops with their early return update the offsets and return the matches as the scan function says; what that comes to is `LogMeaning.PollReports` |
| LogMeaning.PollReports | emule_test_harness/live_process_monitor.py:260-303 | told of lines and patterns: of the lines read up to the one that brings the scan to the cap, or of all below it, exactly those in which some pattern finds something are reported, once each and in order, with their file, their number and the least pattern that finds something |
| LogMeaning.FirstPatternIsLeast | emule_test_harness/live_process_monitor.py:290-300 | no pattern is reported exactly when none finds anything in the line, and otherwise the least one that does |
| LogMeaning.ReadsWhatWasAppended | emule_test_harness/live_process_monitor.py:270-289 | what is read of a file: nothing when it cannot be read or its size is the offset, all of it when it has become shorter, and otherwise what lies behind the offset; and where the offset then stands |
| LogMeaning.HitsAreFound | emule_test_harness/live_process_monitor.py:289-300 | the hits of some lines are, in order, the lines in which some pattern finds something, each with the least one |
| LogScan.Utf8DecodesByLines | emule_test_harness/live_process_monitor.py:288 | UTF-8 with replacement may be decoded piecewise behind line feeds and keeps them, which is what the scan theorems ask of a decoder |
| Utf8.DecodeConcat | emule_test_harness/live_process_monitor.py:288 | decoding a text cut behind a line feed is decoding its parts, malformed bytes included |
| Utf8.DecodeEncode | emule_test_harness/live_process_monitor.py:288 | the decoder gives back every text from its UTF-8 encoding |
| Utf8.FirstCharIs | emule_test_harness/live_process_monitor.py:288 | of any bytes, malformed or not: the first character is the one whose encoding they begin with, and when there is none a replacement character for the longest beginning of an encoding, or one byte |
| Utf8.AsciiDecodes | emule_test_harness/live_process_monitor.py:288 | ASCII bytes decode to the same characters |
| LanPool.AnyRun | emule_test_harness/lan_ip_pool.py:64-175 | over any run of calls ended by a release, with others changing the interface in between, no address of others is removed; every cycle from one release to the next restores the pool's addresses unless an addition or removal slipped in it, and the DAD setting unless reading or writing that slipped, whatever else failed and whatever failed in other cycles |
| LanPool.ChainRestores | emule_test_harness/lan_ip_pool.py:157-169 | over any number of cycles without a slip, addresses and setting are what they were at the start |
| LanPool.Pool.Acquire | emule_test_harness/lan_ip_pool.py:129-155 | success returns exactly `count` new, distinct, in-range addresses, the first free eligible candidates, with the DAD setting saved and off; too few means that all were tried and the pool was released; other failures keep what was added, and a changed setting saved |
| LanPool.Pool.TryCandidates | emule_test_harness/lan_ip_pool.py:134-150 | the loop of an acquisition: candidates are tried in order until there are enough or a command fails |
| LanPool.Pool.AddOne | emule_test_harness/lan_ip_pool.py:142-148 | an address is held only after its addition has succeeded, and it was not on the interface before |
| LanPool.TriedMeans | emule_test_harness/lan_ip_pool.py:134-155 | what the tries come to: the free ones among the eligible candidates in order, or too few although all were tried |
| LanPool.Pool.Release | emule_test_harness/lan_ip_pool.py:157-169 | tries to remove every held address and nothing else; if the removals take effect they are gone, if the setting can be written it is the saved one, and the cycle it ends is restored unless something slipped in it |
| LanPool.Pool.DisableDad | emule_test_harness/lan_ip_pool.py:92-115 | a first call that succeeds saves the setting it read (1 when that was no number) and turns it off; the setting is never changed without a saved one, and a saved one is never overwritten |
| LanPool.Pool.RestoreDad | emule_test_harness/lan_ip_pool.py:117-127 | the saved value is written back and forgotten even when writing fails |
| LanPool.CandidatesAre | emule_test_harness/lan_ip_pool.py:82-90 | the candidates are the addresses of the LAN address's network with a last octet in range, each once and in ascending order |
| LanPool.CandidatesRaiseIff | emule_test_harness/lan_ip_pool.py:82-90 | listing the candidates raises exactly when the prefix length or an octet in range is none of an IPv4 address |
| LanPool.WidePrefixKeepsAll | emule_test_harness/lan_ip_pool.py:82-90 | with a prefix of at most 24 bits no octet in range is left out |
| LanPool.LongPrefixKeepsBlock | emule_test_harness/lan_ip_pool.py:82-90 | with a prefix of 24 to 32 bits the network is the block of 256 down to 1 last octets that the LAN address lies in |
| LanPool.EligibleAre | emule_test_harness/lan_ip_pool.py:135-139 | what is tried is distinct, and is every candidate that is neither assigned nor the LAN address |
| LanPool.EligibleInOrder | emule_test_harness/lan_ip_pool.py:135-139 | and in ascending order |

## Left out

- SQLite, the schema (`schema.sql` is not part of this model) and timestamps: tables are maps keyed by their conflict key, row ids are a counter of fresh ids, and one fixed time stands for now. A uniqueness rule on `verified_ranges`, if the schema has one, is not modelled.
- `seed_transfer_manifest`, `seed_imported_known_files` and `read_transfer_manifest`: upserts and queries of single rows over the same tables.
- Text decoding, case folding, Unicode normalization, the test for public addresses, regular expressions and the reading of numbers from spelled opcodes are parameters; where a property needs something of them it is a stated condition (`LogScan.DecodesByLines`, which UTF-8 with replacement is shown to meet, `SharedRoots.KeepsVolume`, `ServerMet.KeepsAscii`).
- Hashes are bytes; their hexadecimal spelling matters only where seeding looks hashes up by it. The Base32 spelling of AICH roots is a parameter.
- Shared roots one component below a volume, or a volume itself: resolving the parent of those goes through the working directory. Listed roots have two components or more below their volume. The listed roots come normalized: dropping blank entries and the long-path prefix of Windows paths is not modelled.
- SharedRoots.SelectRoots: the order in which directories of one depth are tried is not fixed, because it does not affect the result.
- Edit scripts are inputs with the tiling contract of `difflib.SequenceMatcher`, whose search is not modelled. Wire keys are tuples rather than formatted strings.
- `_event_identity` is a parameter: the event matching is proved for every identity function.
- The `sched` family and the top-level dispatch over families in `diag_event_diff.py`.
- Sorted order of report lists, opcode names, descriptions of records and JSON rendering. The lists of the coverage, audit and gate reports are sets, or sequences in some order. An opcode is a whole number or a text.
- A packet record whose body is neither an object nor empty makes the conformance index raise; bodies here are objects or empty.
- Dumper fields computed from tags, the hidden hashes of summary mode for `known.met`, and the parsers of `.part.met`, `canceled.met`, `preferences.dat` and `statistics.dat`.
- The count `known2AichRecords` in the import summaries: it is the size of the map as read, so it does differ between a filtered and a full read.
- `import_mfc_shared_file_rows_hashes` and the walk over directories that finds candidate files: the candidates are an input.
- LogScan.IncrementalIsOneScan: the numbers of lines behind an offset are not compared with those of one scan, which counts from the start of the file; and a file that is emptied and grows again keeps its old offset, so only growing files are covered.
- LogScan.CapLosesTheRest: the cap is at least one; with a cap below one every scan stops behind the first line it looks at, which `LogScan.ScanLogMarkers` says and no lemma takes further.
- LanPool.AnyRun: others may add addresses during a call and remove theirs between calls, but do not remove addresses of the pool or change the DAD setting; addresses are four octets, and looking the interface up by address is not modelled.
- Network, process, window and dump handling, HTTP clients, VPN helpers, profiling, campaign tables and command lines: no state of their own, or flag tables.
