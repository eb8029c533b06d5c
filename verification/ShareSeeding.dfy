/**
 Seeding completed shared files into the metadata tables: one manifest at a time, or table by table for a
 whole batch. A table is a map under its ON CONFLICT key, with the row ids it hands out.
 */
module ShareSeeding {
  import opened Outcomes
  import opened Hex
  import opened PieceArithmetic
  import opened RowTables

  datatype Manifest = Manifest(
    ed2kHash: string, name: string, size: int, sourcePath: string, sourceMtimeMs: int,
    md4: seq<string>, aichRoot: Option<string>, aich: seq<string>, stats: Stats)

  datatype Stats = Stats(
    uploadPriority: string, autoUploadPriority: bool, uploadedBytes: int,
    uploadRequests: int, uploadAccepts: int, lastUploadRequestMs: int)

  /** The path normaliser of the platform, and the one clock reading a call uses. */
  datatype Env = Env(normalize: string -> string, now: int)

  // ---------------------------------------------------------------- tables

  datatype PathRow = PathRow(id: nat, displayPath: string, lastStatMs: int)
  datatype PathTable = PathTable(rows: map<string, PathRow>, next: nat)

  /** The columns of a known file that a conflicting insert replaces. */
  datatype Facts = Facts(
    size: int, name: string, partSize: int, partCount: int, completed: bool, md4Acquired: bool,
    aichAcquired: bool, aichRoot: Option<Bytes>, stats: Stats)
  datatype KnownRow = KnownRow(
    id: nat, facts: Facts, comment: string, rating: int, firstSeenMs: int, lastSeenMs: int, updatedMs: int)
  datatype KnownTable = KnownTable(rows: map<Bytes, KnownRow>, next: nat)

  datatype TransferRow = TransferRow(
    id: nat, visibleState: string, controlState: Option<string>, downloadPriority: string, payloadDirectory: string,
    sourcePathId: nat, sourceMtimeMs: int, createdMs: int, updatedMs: int, completedMs: int, removedMs: Option<int>)
  datatype TransferTable = TransferTable(rows: map<nat, TransferRow>, next: nat)

  datatype SourceRow = SourceRow(knownId: nat, fileSize: int, sourceMtimeMs: int, createdMs: int, updatedMs: int)

  datatype Piece = Piece(state: string, bytesWritten: int, updatedMs: int)

  datatype Database = Database(
    paths: PathTable, known: KnownTable, transfers: TransferTable, sources: map<nat, SourceRow>,
    scanFailures: set<nat>, pieces: Parts<Piece>, md4: Parts<Bytes>, aich: Parts<Bytes>, ranges: seq<Range>)

  // ---------------------------------------------------------------- the values bound to each statement

  datatype PathValues = PathValues(displayPath: string, key: string)
  datatype KnownValues = KnownValues(hash: Bytes, facts: Facts)
  datatype TransferValues = TransferValues(knownId: nat, payloadDirectory: string, pathId: nat, mtimeMs: int)
  datatype SourceValues = SourceValues(knownId: nat, pathId: nat, size: int, mtimeMs: int)

  function Unhex(s: string): Bytes {
    FromHex(s).GetOr([])
  }

  function UnhexAll(hashes: seq<string>): (r: seq<Bytes>)
    ensures |r| == |hashes|
  {
    if hashes == [] then [] else UnhexAll(hashes[..|hashes| - 1]) + [Unhex(hashes[|hashes| - 1])]
  }

  predicate AllDecode(hashes: seq<string>) {
    forall i :: 0 <= i < |hashes| ==> FromHex(hashes[i]).Some?
  }

  /** Every hexadecimal field of the manifest can be decoded. */
  predicate Decodes(m: Manifest) {
    && FromHex(m.ed2kHash).Some?
    && (m.aichRoot.Some? ==> FromHex(m.aichRoot.value).Some?)
    && AllDecode(m.md4) && AllDecode(m.aich)
  }

  function HashOf(m: Manifest): Bytes {
    Unhex(m.ed2kHash)
  }

  function PathValuesOf(m: Manifest, e: Env): PathValues {
    PathValues(m.sourcePath, e.normalize(m.sourcePath))
  }

  function FactsOf(m: Manifest): Facts {
    Facts(m.size, m.name, ED2K_PART_SIZE, PieceCount(m.size, ED2K_PART_SIZE), true, true, m.aichRoot.Some?,
          if m.aichRoot.Some? && m.aichRoot.value != "" then Some(Unhex(m.aichRoot.value)) else None, m.stats)
  }

  function KnownValuesOf(m: Manifest): KnownValues {
    KnownValues(HashOf(m), FactsOf(m))
  }

  function KnownId(known: KnownTable, m: Manifest): nat {
    if HashOf(m) in known.rows then known.rows[HashOf(m)].id else 0
  }

  function PathId(paths: PathTable, m: Manifest, e: Env): nat {
    var key := e.normalize(m.sourcePath);
    if key in paths.rows then paths.rows[key].id else 0
  }

  function TransferId(transfers: TransferTable, knownId: nat): nat {
    if knownId in transfers.rows then transfers.rows[knownId].id else 0
  }

  function TransferValuesOf(m: Manifest, known: KnownTable, paths: PathTable, e: Env): TransferValues {
    TransferValues(KnownId(known, m), m.ed2kHash, PathId(paths, m, e), m.sourceMtimeMs)
  }

  function SourceValuesOf(m: Manifest, known: KnownTable, paths: PathTable, e: Env): SourceValues {
    SourceValues(KnownId(known, m), PathId(paths, m, e), m.size, m.sourceMtimeMs)
  }

  function RangeOf(m: Manifest, known: KnownTable, e: Env): Range {
    Range(KnownId(known, m), 0, m.size, e.now)
  }

  function PiecesOf(size: int, count: int, e: Env): seq<Piece> {
    if count <= 0 then []
    else PiecesOf(size, count - 1, e) + [Piece("Verified", ExpectedPieceLength(size, ED2K_PART_SIZE, count - 1), e.now)]
  }

  function PieceRowsOf(m: Manifest, seedPieces: bool, e: Env): seq<Piece> {
    if seedPieces then PiecesOf(m.size, PieceCount(m.size, ED2K_PART_SIZE), e) else []
  }

  /** The bytes that the piece rows of a file account for. */
  function BytesWritten(pieces: seq<Piece>): int {
    if pieces == [] then 0 else BytesWritten(pieces[..|pieces| - 1]) + pieces[|pieces| - 1].bytesWritten
  }

  lemma {:induction false} BytesWrittenIs(size: int, count: nat, e: Env)
    ensures |PiecesOf(size, count, e)| == count
    ensures BytesWritten(PiecesOf(size, count, e)) == PieceLengthSum(size, ED2K_PART_SIZE, count)
  {
    if count > 0 {
      BytesWrittenIs(size, count - 1, e);
      var init := PiecesOf(size, count - 1, e);
      assert PiecesOf(size, count, e)[..count - 1] == init;
    }
  }

  /** The piece rows of a completed file account for exactly its verified range. */
  lemma PiecesCoverRange(m: Manifest, known: KnownTable, e: Env)
    requires m.size > 0
    ensures BytesWritten(PieceRowsOf(m, true, e)) == RangeOf(m, known, e).end - RangeOf(m, known, e).start
  {
    PiecesTileFile(m.size, ED2K_PART_SIZE);
    BytesWrittenIs(m.size, PieceCount(m.size, ED2K_PART_SIZE), e);
  }

  // ---------------------------------------------------------------- statements

  function PutPath(t: PathTable, v: PathValues, now: int): PathTable {
    if v.key in t.rows then PathTable(t.rows[v.key := PathRow(t.rows[v.key].id, v.displayPath, now)], t.next)
    else PathTable(t.rows[v.key := PathRow(t.next, v.displayPath, now)], t.next + 1)
  }

  function PutKnown(t: KnownTable, v: KnownValues, now: int): KnownTable {
    if v.hash in t.rows then
      KnownTable(t.rows[v.hash := t.rows[v.hash].(facts := v.facts, lastSeenMs := now, updatedMs := now)], t.next)
    else
      KnownTable(t.rows[v.hash := KnownRow(t.next, v.facts, "", 0, now, now, now)], t.next + 1)
  }

  function PutTransfer(t: TransferTable, v: TransferValues, now: int): TransferTable {
    if v.knownId in t.rows then
      TransferTable(t.rows[v.knownId := t.rows[v.knownId].(
        visibleState := "completed", downloadPriority := "normal", payloadDirectory := v.payloadDirectory,
        sourcePathId := v.pathId, sourceMtimeMs := v.mtimeMs, updatedMs := now, completedMs := now,
        removedMs := None)], t.next)
    else
      TransferTable(t.rows[v.knownId := TransferRow(t.next, "completed", None, "normal", v.payloadDirectory,
                                                    v.pathId, v.mtimeMs, now, now, now, None)], t.next + 1)
  }

  function PutSource(t: map<nat, SourceRow>, v: SourceValues, now: int): map<nat, SourceRow> {
    var created := if v.pathId in t then t[v.pathId].createdMs else now;
    t[v.pathId := SourceRow(v.knownId, v.size, v.mtimeMs, created, now)]
  }

  // ---------------------------------------------------------------- one statement for many rows

  function PutPaths(t: PathTable, vs: seq<PathValues>, now: int): PathTable {
    if vs == [] then t else PutPath(PutPaths(t, vs[..|vs| - 1], now), vs[|vs| - 1], now)
  }

  function PutKnowns(t: KnownTable, vs: seq<KnownValues>, now: int): KnownTable {
    if vs == [] then t else PutKnown(PutKnowns(t, vs[..|vs| - 1], now), vs[|vs| - 1], now)
  }

  function PutTransfers(t: TransferTable, vs: seq<TransferValues>, now: int): TransferTable {
    if vs == [] then t else PutTransfer(PutTransfers(t, vs[..|vs| - 1], now), vs[|vs| - 1], now)
  }

  function PutSources(t: map<nat, SourceRow>, vs: seq<SourceValues>, now: int): map<nat, SourceRow> {
    if vs == [] then t else PutSource(PutSources(t, vs[..|vs| - 1], now), vs[|vs| - 1], now)
  }

  function DropFailures(failures: set<nat>, vs: seq<SourceValues>): set<nat> {
    if vs == [] then failures else DropFailures(failures, vs[..|vs| - 1]) - {vs[|vs| - 1].pathId}
  }

  function PathRows(ms: seq<Manifest>, e: Env): seq<PathValues> {
    if ms == [] then [] else PathRows(ms[..|ms| - 1], e) + [PathValuesOf(ms[|ms| - 1], e)]
  }

  function KnownRows(ms: seq<Manifest>): seq<KnownValues> {
    if ms == [] then [] else KnownRows(ms[..|ms| - 1]) + [KnownValuesOf(ms[|ms| - 1])]
  }

  function TransferRows(ms: seq<Manifest>, known: KnownTable, paths: PathTable, e: Env): seq<TransferValues> {
    if ms == [] then []
    else TransferRows(ms[..|ms| - 1], known, paths, e) + [TransferValuesOf(ms[|ms| - 1], known, paths, e)]
  }

  function SourceRows(ms: seq<Manifest>, known: KnownTable, paths: PathTable, e: Env): seq<SourceValues> {
    if ms == [] then []
    else SourceRows(ms[..|ms| - 1], known, paths, e) + [SourceValuesOf(ms[|ms| - 1], known, paths, e)]
  }

  function Md4Rows(ms: seq<Manifest>, known: KnownTable): seq<Family<Bytes>> {
    if ms == [] then []
    else Md4Rows(ms[..|ms| - 1], known) + [Family(KnownId(known, ms[|ms| - 1]), UnhexAll(ms[|ms| - 1].md4))]
  }

  function AichRows(ms: seq<Manifest>, known: KnownTable): seq<Family<Bytes>> {
    if ms == [] then []
    else AichRows(ms[..|ms| - 1], known) + [Family(KnownId(known, ms[|ms| - 1]), UnhexAll(ms[|ms| - 1].aich))]
  }

  function RangeRows(ms: seq<Manifest>, known: KnownTable, e: Env): seq<Range> {
    if ms == [] then [] else RangeRows(ms[..|ms| - 1], known, e) + [RangeOf(ms[|ms| - 1], known, e)]
  }

  function PieceRows(ms: seq<Manifest>, known: KnownTable, transfers: TransferTable, seedPieces: bool, e: Env)
    : seq<Family<Piece>>
  {
    if ms == [] then []
    else
      var m := ms[|ms| - 1];
      PieceRows(ms[..|ms| - 1], known, transfers, seedPieces, e)
      + [Family(TransferId(transfers, KnownId(known, m)), PieceRowsOf(m, seedPieces, e))]
  }

  // ---------------------------------------------------------------- the two writers

  /** Seeding one manifest, statement by statement. */
  function SeedOne(db: Database, m: Manifest, seedPieces: bool, e: Env): Database {
    var paths := PutPath(db.paths, PathValuesOf(m, e), e.now);
    var known := PutKnown(db.known, KnownValuesOf(m), e.now);
    var knownId := KnownId(known, m);
    var transfers := PutTransfer(db.transfers, TransferValuesOf(m, known, paths, e), e.now);
    var transferId := TransferId(transfers, knownId);
    var source := SourceValuesOf(m, known, paths, e);
    Database(
      paths, known, transfers,
      PutSource(db.sources, source, e.now),
      db.scanFailures - {source.pathId},
      InsertParts(DeleteParts(db.pieces, transferId), transferId, PieceRowsOf(m, seedPieces, e)),
      InsertParts(DeleteParts(db.md4, knownId), knownId, UnhexAll(m.md4)),
      InsertParts(DeleteParts(db.aich, knownId), knownId, UnhexAll(m.aich)),
      DeleteRanges(db.ranges, knownId) + [RangeOf(m, known, e)])
  }

  function SeedRows(db: Database, ms: seq<Manifest>, seedPieces: bool, e: Env): Database {
    if ms == [] then db else SeedOne(SeedRows(db, ms[..|ms| - 1], seedPieces, e), ms[|ms| - 1], seedPieces, e)
  }

  /** Seeding a whole batch, table by table, with the ids read from the finished tables. */
  function SeedBatch(db: Database, ms: seq<Manifest>, e: Env): Database {
    var paths := PutPaths(db.paths, PathRows(ms, e), e.now);
    var known := PutKnowns(db.known, KnownRows(ms), e.now);
    var sources := SourceRows(ms, known, paths, e);
    Database(
      paths, known,
      PutTransfers(db.transfers, TransferRows(ms, known, paths, e), e.now),
      PutSources(db.sources, sources, e.now),
      DropFailures(db.scanFailures, sources),
      db.pieces,
      MergeAll(db.md4, Md4Rows(ms, known)),
      MergeAll(db.aich, AichRows(ms, known)),
      db.ranges + RangeRows(ms, known, e))
  }

  // ---------------------------------------------------------------- ids stay what they were

  ghost predicate KnownIdsKept(a: KnownTable, b: KnownTable) {
    forall h :: h in a.rows ==> h in b.rows && b.rows[h].id == a.rows[h].id
  }

  ghost predicate PathIdsKept(a: PathTable, b: PathTable) {
    forall k :: k in a.rows ==> k in b.rows && b.rows[k].id == a.rows[k].id
  }

  ghost predicate TransferIdsKept(a: TransferTable, b: TransferTable) {
    forall k :: k in a.rows ==> k in b.rows && b.rows[k].id == a.rows[k].id
  }

  ghost predicate AllKnown(ms: seq<Manifest>, known: KnownTable) {
    forall i :: 0 <= i < |ms| ==> HashOf(ms[i]) in known.rows
  }

  ghost predicate AllPathed(ms: seq<Manifest>, paths: PathTable, e: Env) {
    forall i :: 0 <= i < |ms| ==> e.normalize(ms[i].sourcePath) in paths.rows
  }

  ghost predicate AllTransferred(ms: seq<Manifest>, known: KnownTable, transfers: TransferTable) {
    forall i :: 0 <= i < |ms| ==> KnownId(known, ms[i]) in transfers.rows
  }

  /** The child rows of a batch are the same under any later tables. */
  lemma {:induction false} LaterTablesSameRows(ms: seq<Manifest>, k1: KnownTable, k2: KnownTable,
                                               p1: PathTable, p2: PathTable, e: Env)
    requires KnownIdsKept(k1, k2) && PathIdsKept(p1, p2) && AllKnown(ms, k1) && AllPathed(ms, p1, e)
    ensures TransferRows(ms, k1, p1, e) == TransferRows(ms, k2, p2, e)
    ensures SourceRows(ms, k1, p1, e) == SourceRows(ms, k2, p2, e)
    ensures Md4Rows(ms, k1) == Md4Rows(ms, k2) && AichRows(ms, k1) == AichRows(ms, k2)
    ensures RangeRows(ms, k1, e) == RangeRows(ms, k2, e)
  {
    if ms != [] {
      LaterTablesSameRows(ms[..|ms| - 1], k1, k2, p1, p2, e);
    }
  }

  lemma {:induction false} LaterTablesSamePieces(ms: seq<Manifest>, k1: KnownTable, k2: KnownTable,
                                                 t1: TransferTable, t2: TransferTable, seedPieces: bool, e: Env)
    requires KnownIdsKept(k1, k2) && TransferIdsKept(t1, t2) && AllKnown(ms, k1) && AllTransferred(ms, k1, t1)
    ensures PieceRows(ms, k1, t1, seedPieces, e) == PieceRows(ms, k2, t2, seedPieces, e)
  {
    if ms != [] {
      LaterTablesSamePieces(ms[..|ms| - 1], k1, k2, t1, t2, seedPieces, e);
    }
  }

  // ---------------------------------------------------------------- the row-by-row writer, table by table

  lemma SeedOneKeepsIds(db: Database, m: Manifest, seedPieces: bool, e: Env)
    ensures var r := SeedOne(db, m, seedPieces, e);
            && KnownIdsKept(db.known, r.known) && PathIdsKept(db.paths, r.paths)
            && TransferIdsKept(db.transfers, r.transfers)
            && HashOf(m) in r.known.rows && e.normalize(m.sourcePath) in r.paths.rows
            && KnownId(r.known, m) in r.transfers.rows
  {
  }

  lemma KnownSnoc(init: seq<Manifest>, m: Manifest, k1: KnownTable, k2: KnownTable, p1: PathTable, p2: PathTable,
                  e: Env)
    requires AllKnown(init, k1) && KnownIdsKept(k1, k2) && HashOf(m) in k2.rows
    requires AllPathed(init, p1, e) && PathIdsKept(p1, p2) && e.normalize(m.sourcePath) in p2.rows
    ensures AllKnown(init + [m], k2) && AllPathed(init + [m], p2, e)
  {
    hide HashOf;
  }

  lemma TransferredSnoc(init: seq<Manifest>, m: Manifest, k1: KnownTable, k2: KnownTable,
                        t1: TransferTable, t2: TransferTable)
    requires AllKnown(init, k1) && KnownIdsKept(k1, k2)
    requires AllTransferred(init, k1, t1) && TransferIdsKept(t1, t2) && KnownId(k2, m) in t2.rows
    ensures AllTransferred(init + [m], k2, t2)
  {
    hide HashOf;
    forall i | 0 <= i < |init|
      ensures KnownId(k2, init[i]) in t2.rows
    {
      assert KnownId(k2, init[i]) == KnownId(k1, init[i]);
    }
  }

  /** After seeding row by row every manifest has its path, its known file and its transfer. */
  lemma {:induction false} SeedRowsCovers(db: Database, ms: seq<Manifest>, seedPieces: bool, e: Env)
    ensures var r := SeedRows(db, ms, seedPieces, e);
            AllKnown(ms, r.known) && AllPathed(ms, r.paths, e) && AllTransferred(ms, r.known, r.transfers)
  {
    hide SeedOne, HashOf, AllKnown, AllPathed, AllTransferred;
    if ms == [] {
      NothingSeeded(db, seedPieces, e);
    } else {
      var init, m := ms[..|ms| - 1], ms[|ms| - 1];
      var before := SeedRows(db, init, seedPieces, e);
      var after := SeedOne(before, m, seedPieces, e);
      SeedRowsCovers(db, init, seedPieces, e);
      SeedOneKeepsIds(before, m, seedPieces, e);
      KnownSnoc(init, m, before.known, after.known, before.paths, after.paths, e);
      TransferredSnoc(init, m, before.known, after.known, before.transfers, after.transfers);
      assert init + [m] == ms;
    }
  }

  /** The parent tables after seeding row by row are the bulk ones, ids included. */
  lemma {:induction false} SeedRowsParents(db: Database, ms: seq<Manifest>, seedPieces: bool, e: Env)
    ensures SeedRows(db, ms, seedPieces, e).paths == PutPaths(db.paths, PathRows(ms, e), e.now)
    ensures SeedRows(db, ms, seedPieces, e).known == PutKnowns(db.known, KnownRows(ms), e.now)
  {
    if ms != [] {
      SeedRowsParents(db, ms[..|ms| - 1], seedPieces, e);
    }
  }

  /** Each child table after seeding row by row, told with the ids of the finished parent tables. */
  ghost predicate ChildrenAre(db: Database, ms: seq<Manifest>, seedPieces: bool, e: Env, r: Database) {
    var sources := SourceRows(ms, r.known, r.paths, e);
    && r.transfers == PutTransfers(db.transfers, TransferRows(ms, r.known, r.paths, e), e.now)
    && r.sources == PutSources(db.sources, sources, e.now)
    && r.scanFailures == DropFailures(db.scanFailures, sources)
    && r.pieces == ReplaceAll(db.pieces, PieceRows(ms, r.known, r.transfers, seedPieces, e))
    && r.md4 == ReplaceAll(db.md4, Md4Rows(ms, r.known))
    && r.aich == ReplaceAll(db.aich, AichRows(ms, r.known))
    && r.ranges == ReplaceRanges(db.ranges, RangeRows(ms, r.known, e))
  }

  lemma RowsSnoc(init: seq<Manifest>, m: Manifest, k: KnownTable, p: PathTable, t: TransferTable,
                 seedPieces: bool, e: Env)
    ensures TransferRows(init + [m], k, p, e) == TransferRows(init, k, p, e) + [TransferValuesOf(m, k, p, e)]
    ensures SourceRows(init + [m], k, p, e) == SourceRows(init, k, p, e) + [SourceValuesOf(m, k, p, e)]
    ensures Md4Rows(init + [m], k) == Md4Rows(init, k) + [Family(KnownId(k, m), UnhexAll(m.md4))]
    ensures AichRows(init + [m], k) == AichRows(init, k) + [Family(KnownId(k, m), UnhexAll(m.aich))]
    ensures RangeRows(init + [m], k, e) == RangeRows(init, k, e) + [RangeOf(m, k, e)]
    ensures PieceRows(init + [m], k, t, seedPieces, e)
         == PieceRows(init, k, t, seedPieces, e)
            + [Family(TransferId(t, KnownId(k, m)), PieceRowsOf(m, seedPieces, e))]
  {
    hide HashOf, KnownId, PathId, TransferId, UnhexAll, PieceRowsOf;
    assert (init + [m])[..|init|] == init;
  }

  lemma PutsSnoc(db: Database, ts: seq<TransferValues>, t: TransferValues, ss: seq<SourceValues>, s: SourceValues,
                 now: int)
    ensures PutTransfers(db.transfers, ts + [t], now) == PutTransfer(PutTransfers(db.transfers, ts, now), t, now)
    ensures PutSources(db.sources, ss + [s], now) == PutSource(PutSources(db.sources, ss, now), s, now)
    ensures DropFailures(db.scanFailures, ss + [s]) == DropFailures(db.scanFailures, ss) - {s.pathId}
  {
    hide PutTransfer, PutSource;
    assert (ts + [t])[..|ts|] == ts && (ss + [s])[..|ss|] == ss;
  }

  lemma ChildrenSnoc(db: Database, init: seq<Manifest>, m: Manifest, seedPieces: bool, e: Env,
                     before: Database, after: Database)
    requires ChildrenAre(db, init, seedPieces, e, before) && after == SeedOne(before, m, seedPieces, e)
    requires TransferRows(init, before.known, before.paths, e) == TransferRows(init, after.known, after.paths, e)
    requires SourceRows(init, before.known, before.paths, e) == SourceRows(init, after.known, after.paths, e)
    requires Md4Rows(init, before.known) == Md4Rows(init, after.known)
    requires AichRows(init, before.known) == AichRows(init, after.known)
    requires RangeRows(init, before.known, e) == RangeRows(init, after.known, e)
    requires PieceRows(init, before.known, before.transfers, seedPieces, e)
          == PieceRows(init, after.known, after.transfers, seedPieces, e)
    ensures ChildrenAre(db, init + [m], seedPieces, e, after)
  {
    hide HashOf, KnownId, PathId, TransferId, UnhexAll, PieceRowsOf, FactsOf;
    hide PutPath, PutKnown, PutTransfer, PutSource, InsertParts, DeleteParts, DeleteRanges;
    hide TransferRows, SourceRows, Md4Rows, AichRows, RangeRows, PieceRows;
    hide PutTransfers, PutSources, DropFailures, ReplaceAll, ReplaceRanges;
    var k, p, t := after.known, after.paths, after.transfers;
    RowsSnoc(init, m, k, p, t, seedPieces, e);
    PutsSnoc(db, TransferRows(init, k, p, e), TransferValuesOf(m, k, p, e),
             SourceRows(init, k, p, e), SourceValuesOf(m, k, p, e), e.now);
    ReplaceAllSnoc(db.md4, Md4Rows(init, k), Family(KnownId(k, m), UnhexAll(m.md4)));
    ReplaceAllSnoc(db.aich, AichRows(init, k), Family(KnownId(k, m), UnhexAll(m.aich)));
    ReplaceAllSnoc(db.pieces, PieceRows(init, k, t, seedPieces, e),
                   Family(TransferId(t, KnownId(k, m)), PieceRowsOf(m, seedPieces, e)));
    ReplaceRangesSnoc(db.ranges, RangeRows(init, k, e), RangeOf(m, k, e));
  }

  lemma NothingSeeded(db: Database, seedPieces: bool, e: Env)
    ensures ChildrenAre(db, [], seedPieces, e, db)
    ensures AllKnown([], db.known) && AllPathed([], db.paths, e) && AllTransferred([], db.known, db.transfers)
  {
    assert db.ranges + [] == db.ranges;
  }

  lemma {:induction false} SeedRowsChildren(db: Database, ms: seq<Manifest>, seedPieces: bool, e: Env)
    ensures ChildrenAre(db, ms, seedPieces, e, SeedRows(db, ms, seedPieces, e))
  {
    hide SeedOne, ChildrenAre, AllKnown, AllPathed, AllTransferred, KnownIdsKept, PathIdsKept, TransferIdsKept;
    hide TransferRows, SourceRows, Md4Rows, AichRows, RangeRows, PieceRows;
    if ms == [] {
      NothingSeeded(db, seedPieces, e);
    } else {
      var init, m := ms[..|ms| - 1], ms[|ms| - 1];
      var before := SeedRows(db, init, seedPieces, e);
      var after := SeedOne(before, m, seedPieces, e);
      SeedRowsCovers(db, init, seedPieces, e);
      SeedRowsChildren(db, init, seedPieces, e);
      SeedOneKeepsIds(before, m, seedPieces, e);
      LaterTablesSameRows(init, before.known, after.known, before.paths, after.paths, e);
      LaterTablesSamePieces(init, before.known, after.known, before.transfers, after.transfers, seedPieces, e);
      ChildrenSnoc(db, init, m, seedPieces, e, before, after);
      assert init + [m] == ms;
    }
  }

  // ---------------------------------------------------------------- the two writers against each other

  /** The tables that hold one row per key end up the same whatever the batch. */
  lemma KeyedTablesAgree(db: Database, ms: seq<Manifest>, e: Env)
    ensures var rows, batch := SeedRows(db, ms, false, e), SeedBatch(db, ms, e);
            && rows.paths == batch.paths && rows.known == batch.known && rows.transfers == batch.transfers
            && rows.sources == batch.sources && rows.scanFailures == batch.scanFailures
  {
    hide SeedOne, SeedRows, TransferRows, SourceRows, PutPaths, PutKnowns, PutTransfers, PutSources, DropFailures;
    SeedRowsParents(db, ms, false, e);
    SeedRowsChildren(db, ms, false, e);
  }

  /** No piece row belongs to a transfer of the batch. */
  ghost predicate NoStalePieces(db: Database, ms: seq<Manifest>, e: Env) {
    var batch := SeedBatch(db, ms, e);
    LastOverwritesAll(db.pieces, PieceRows(ms, batch.known, batch.transfers, false, e))
  }

  lemma {:induction false} NoPieceRows(ms: seq<Manifest>, known: KnownTable, transfers: TransferTable, e: Env,
                                       t: Parts<Piece>)
    ensures MergeAll(t, PieceRows(ms, known, transfers, false, e)) == t
  {
    if ms != [] {
      NoPieceRows(ms[..|ms| - 1], known, transfers, e, t);
    }
  }

  /** The tables that hold many rows per file agree exactly when the batch leaves nothing stale behind in them. */
  lemma ChildTablesAgreeIff(db: Database, ms: seq<Manifest>, e: Env)
    ensures var rows, batch := SeedRows(db, ms, false, e), SeedBatch(db, ms, e);
            && (rows.md4 == batch.md4 <==> LastOverwritesAll(db.md4, Md4Rows(ms, batch.known)))
            && (rows.aich == batch.aich <==> LastOverwritesAll(db.aich, AichRows(ms, batch.known)))
            && (rows.pieces == batch.pieces <==> NoStalePieces(db, ms, e))
            && (RowSet(rows.ranges) == RowSet(batch.ranges) <==> RangesAgree(db.ranges, RangeRows(ms, batch.known, e)))
            && (rows.ranges == batch.ranges <==> ParentsAreNew(db.ranges, RangeRows(ms, batch.known, e)))
  {
    hide SeedOne, SeedRows, TransferRows, SourceRows, PutPaths, PutKnowns, PutTransfers, PutSources, DropFailures;
    hide ReplaceAll, MergeAll, ReplaceRanges, RowSet, Md4Rows, AichRows, RangeRows, PieceRows;
    hide LastOverwritesAll, RangesAgree, ParentsAreNew;
    var batch := SeedBatch(db, ms, e);
    KeyedTablesAgree(db, ms, e);
    SeedRowsChildren(db, ms, false, e);
    ReplaceIsMergeIff(db.md4, Md4Rows(ms, batch.known));
    ReplaceIsMergeIff(db.aich, AichRows(ms, batch.known));
    ReplaceIsMergeIff(db.pieces, PieceRows(ms, batch.known, batch.transfers, false, e));
    NoPieceRows(ms, batch.known, batch.transfers, e, db.pieces);
    ReplaceRangesIsAppendIff(db.ranges, RangeRows(ms, batch.known, e));
    SameRangesIffNew(db.ranges, RangeRows(ms, batch.known, e));
  }
}
