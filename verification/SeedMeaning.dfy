/**
 What the tables hold after seeding, told of the manifests themselves: both writers store, for every file, path,
 transfer and source of a batch, what its last manifest says, keep the ids and first times of rows that were there
 before, and leave other rows alone.
 */
module SeedMeaning {
  import opened Outcomes
  import opened Hex
  import opened PieceArithmetic
  import opened RowTables
  import opened ShareSeeding
  import opened SeedAgreement

  /** No later manifest of the batch is of the same file. */
  ghost predicate IsLastOfFile(ms: seq<Manifest>, i: nat) {
    i < |ms| && forall j :: i < j < |ms| ==> Unhex(ms[j].ed2kHash) != Unhex(ms[i].ed2kHash)
  }

  /** No later manifest of the batch is of the same normalized path. */
  ghost predicate IsLastOfPath(ms: seq<Manifest>, i: nat, e: Env) {
    i < |ms| && forall j :: i < j < |ms| ==> e.normalize(ms[j].sourcePath) != e.normalize(ms[i].sourcePath)
  }

  /** The last manifest of a batch with a property. */
  function LastWith(ms: seq<Manifest>, holds: Manifest -> bool): Option<Manifest> {
    if ms == [] then None
    else if holds(ms[|ms| - 1]) then Some(ms[|ms| - 1])
    else LastWith(ms[..|ms| - 1], holds)
  }

  lemma {:induction false} LastFound(ms: seq<Manifest>, holds: Manifest -> bool, i: nat)
    requires i < |ms| && holds(ms[i]) && forall j :: i < j < |ms| ==> !holds(ms[j])
    ensures LastWith(ms, holds) == Some(ms[i])
  {
    if i < |ms| - 1 {
      LastFound(ms[..|ms| - 1], holds, i);
    }
  }

  lemma {:induction false} NoneFound(ms: seq<Manifest>, holds: Manifest -> bool)
    requires forall m <- ms :: !holds(m)
    ensures LastWith(ms, holds) == None
  {
    if ms != [] {
      assert ms[|ms| - 1] in ms && forall m <- ms[..|ms| - 1] :: m in ms;
      NoneFound(ms[..|ms| - 1], holds);
    }
  }

  // ---------------------------------------------------------------- known files

  /** The row tells of the file what the manifest does. */
  ghost predicate TellsFile(row: KnownRow, m: Manifest, now: int) {
    && row.facts.size == m.size && row.facts.name == m.name && row.facts.stats == m.stats
    && row.facts.partSize == 9_728_000
    && row.facts.partCount == (if m.size == 0 then 0 else (m.size + 9_727_999) / 9_728_000)
    && row.facts.completed && row.facts.md4Acquired && (row.facts.aichAcquired <==> m.aichRoot.Some?)
    && row.facts.aichRoot == (if m.aichRoot.Some? && m.aichRoot.value != "" then Some(Unhex(m.aichRoot.value))
                              else None)
    && row.lastSeenMs == now && row.updatedMs == now
  }

  /** A row that was there keeps its id, its first time and what a user added; a new one starts afresh. */
  ghost predicate KeepsFile(t: KnownTable, h: Bytes, row: KnownRow, now: int) {
    if h in t.rows then
      && row.id == t.rows[h].id && row.firstSeenMs == t.rows[h].firstSeenMs
      && row.comment == t.rows[h].comment && row.rating == t.rows[h].rating
    else row.id >= t.next && row.firstSeenMs == now && row.comment == "" && row.rating == 0
  }

  /** The row of a file after some manifests, of which `last` is the last one of that file. */
  ghost predicate FileIs(t: KnownTable, r: KnownTable, last: Option<Manifest>, now: int, h: Bytes) {
    && r.next >= t.next
    && match last
       case None => (h in r.rows <==> h in t.rows) && (h in r.rows ==> r.rows[h] == t.rows[h])
       case Some(m) => h in r.rows && TellsFile(r.rows[h], m, now) && KeepsFile(t, h, r.rows[h], now)
  }

  lemma FileStep(t: KnownTable, r: KnownTable, last: Option<Manifest>, now: int, h: Bytes, m: Manifest)
    requires FileIs(t, r, last, now, h)
    ensures FileIs(t, PutKnown(r, KnownValuesOf(m), now), if Unhex(m.ed2kHash) == h then Some(m) else last, now, h)
  {
    hide Unhex;
  }

  lemma {:induction false} KnownFilesAre(t: KnownTable, ms: seq<Manifest>, now: int, h: Bytes,
                                         ofFile: Manifest -> bool)
    requires forall m :: ofFile(m) <==> Unhex(m.ed2kHash) == h
    ensures FileIs(t, PutKnowns(t, KnownRows(ms), now), LastWith(ms, ofFile), now, h)
  {
    if ms != [] {
      hide Unhex, FileIs, PutKnown, KnownValuesOf;
      var init := ms[..|ms| - 1];
      KnownFilesAre(t, init, now, h, ofFile);
      assert KnownRows(ms)[..|KnownRows(ms)| - 1] == KnownRows(init);
      FileStep(t, PutKnowns(t, KnownRows(init), now), LastWith(init, ofFile), now, h, ms[|ms| - 1]);
    }
  }

  // ---------------------------------------------------------------- paths

  ghost predicate TellsPath(t: PathTable, key: string, row: PathRow, m: Manifest, now: int) {
    && row.displayPath == m.sourcePath && row.lastStatMs == now
    && if key in t.rows then row.id == t.rows[key].id else row.id >= t.next
  }

  lemma {:induction false} PathsAre(t: PathTable, ms: seq<Manifest>, e: Env, key: string, ofPath: Manifest -> bool)
    requires forall m :: ofPath(m) <==> e.normalize(m.sourcePath) == key
    ensures var r := PutPaths(t, PathRows(ms, e), e.now);
            && r.next >= t.next
            && match LastWith(ms, ofPath)
               case None => (key in r.rows <==> key in t.rows) && (key in r.rows ==> r.rows[key] == t.rows[key])
               case Some(m) => key in r.rows && TellsPath(t, key, r.rows[key], m, e.now)
  {
    if ms != [] {
      var init := ms[..|ms| - 1];
      PathsAre(t, init, e, key, ofPath);
      assert PathRows(ms, e)[..|PathRows(ms, e)| - 1] == PathRows(init, e);
    }
  }

  // ---------------------------------------------------------------- transfers

  /** The transfer of a file is complete, in its own directory and from the path with the given id. */
  ghost predicate TellsTransfer(row: TransferRow, m: Manifest, pathId: nat, now: int) {
    && row.payloadDirectory == m.ed2kHash && row.sourcePathId == pathId && row.sourceMtimeMs == m.sourceMtimeMs
    && row.visibleState == "completed" && row.downloadPriority == "normal"
    && row.completedMs == now && row.updatedMs == now && row.removedMs == None
  }

  ghost predicate KeepsTransfer(t: TransferTable, id: nat, row: TransferRow, now: int) {
    if id in t.rows then
      && row.id == t.rows[id].id && row.createdMs == t.rows[id].createdMs
      && row.controlState == t.rows[id].controlState
    else row.id >= t.next && row.createdMs == now && row.controlState == None
  }

  lemma PutTransferTells(t: TransferTable, before: TransferTable, v: TransferValues, m: Manifest, now: int, id: nat)
    requires before.next >= t.next && v.payloadDirectory == m.ed2kHash && v.mtimeMs == m.sourceMtimeMs
    requires id in t.rows ==> id in before.rows
    requires id in before.rows ==> KeepsTransfer(t, id, before.rows[id], now)
    ensures var r := PutTransfer(before, v, now);
            && r.next >= t.next
            && (v.knownId != id ==>
                  (id in r.rows <==> id in before.rows) && (id in r.rows ==> r.rows[id] == before.rows[id]))
            && (v.knownId == id ==>
                  id in r.rows && TellsTransfer(r.rows[id], m, v.pathId, now) && KeepsTransfer(t, id, r.rows[id], now))
  {
  }

  lemma {:induction false} TransfersAre(t: TransferTable, ms: seq<Manifest>, known: KnownTable, paths: PathTable,
                                        e: Env, id: nat, ofId: Manifest -> bool)
    requires forall m :: ofId(m) <==> KnownId(known, m) == id
    ensures var r := PutTransfers(t, TransferRows(ms, known, paths, e), e.now);
            && r.next >= t.next
            && match LastWith(ms, ofId)
               case None => (id in r.rows <==> id in t.rows) && (id in r.rows ==> r.rows[id] == t.rows[id])
               case Some(m) =>
                 id in r.rows && TellsTransfer(r.rows[id], m, PathId(paths, m, e), e.now)
                 && KeepsTransfer(t, id, r.rows[id], e.now)
  {
    hide KnownId, PathId;
    if ms != [] {
      var init, m := ms[..|ms| - 1], ms[|ms| - 1];
      TransfersAre(t, init, known, paths, e, id, ofId);
      var rows := TransferRows(ms, known, paths, e);
      assert rows[..|rows| - 1] == TransferRows(init, known, paths, e);
      var before := PutTransfers(t, rows[..|rows| - 1], e.now);
      var v := TransferValuesOf(m, known, paths, e);
      assert PutTransfers(t, rows, e.now) == PutTransfer(before, v, e.now);
      hide PutTransfers, PutTransfer, TransferRows, TellsTransfer;
      PutTransferTells(t, before, v, m, e.now, id);
    }
  }

  // ---------------------------------------------------------------- sources

  ghost predicate TellsSource(t: map<nat, SourceRow>, id: nat, row: SourceRow, m: Manifest, knownId: nat, now: int) {
    && row.knownId == knownId && row.fileSize == m.size && row.sourceMtimeMs == m.sourceMtimeMs
    && row.updatedMs == now && row.createdMs == if id in t then t[id].createdMs else now
  }

  lemma {:induction false} SourcesAre(t: map<nat, SourceRow>, failures: set<nat>, ms: seq<Manifest>, known: KnownTable,
                                      paths: PathTable, e: Env, id: nat, ofId: Manifest -> bool)
    requires forall m :: ofId(m) <==> PathId(paths, m, e) == id
    ensures var rows := SourceRows(ms, known, paths, e);
            var r := PutSources(t, rows, e.now);
            match LastWith(ms, ofId)
            case None =>
              && (id in r <==> id in t) && (id in r ==> r[id] == t[id])
              && (id in DropFailures(failures, rows) <==> id in failures)
            case Some(m) =>
              && id in r && TellsSource(t, id, r[id], m, KnownId(known, m), e.now)
              && id !in DropFailures(failures, rows)
  {
    hide KnownId, PathId;
    if ms != [] {
      var init := ms[..|ms| - 1];
      SourcesAre(t, failures, init, known, paths, e, id, ofId);
      var rows := SourceRows(ms, known, paths, e);
      assert rows[..|rows| - 1] == SourceRows(init, known, paths, e);
    }
  }

  // ---------------------------------------------------------------- ids

  ghost predicate DistinctPathIds(t: PathTable) {
    && (forall k :: k in t.rows ==> t.rows[k].id < t.next)
    && (forall j, k :: j in t.rows && k in t.rows && t.rows[j].id == t.rows[k].id ==> j == k)
  }

  ghost predicate DistinctTransferIds(t: TransferTable) {
    && (forall k :: k in t.rows ==> t.rows[k].id < t.next)
    && (forall j, k :: j in t.rows && k in t.rows && t.rows[j].id == t.rows[k].id ==> j == k)
  }

  lemma {:induction false} PathIdsStayDistinct(t: PathTable, vs: seq<PathValues>, now: int)
    requires DistinctPathIds(t)
    ensures DistinctPathIds(PutPaths(t, vs, now))
  {
    if vs != [] {
      PathIdsStayDistinct(t, vs[..|vs| - 1], now);
    }
  }

  lemma {:induction false} TransferIdsStayDistinct(t: TransferTable, vs: seq<TransferValues>, now: int)
    requires DistinctTransferIds(t)
    ensures DistinctTransferIds(PutTransfers(t, vs, now))
  {
    if vs != [] {
      var before := PutTransfers(t, vs[..|vs| - 1], now);
      TransferIdsStayDistinct(t, vs[..|vs| - 1], now);
      assert PutTransfers(t, vs, now) == PutTransfer(before, vs[|vs| - 1], now);
      hide PutTransfers;
    }
  }

  // ---------------------------------------------------------------- a whole batch

  /** Both writers fill the keyed tables in this way. */
  ghost predicate KeyedTablesFilled(db: Database, ms: seq<Manifest>, e: Env, r: Database) {
    var sources := SourceRows(ms, r.known, r.paths, e);
    && r.paths == PutPaths(db.paths, PathRows(ms, e), e.now)
    && r.known == PutKnowns(db.known, KnownRows(ms), e.now)
    && r.transfers == PutTransfers(db.transfers, TransferRows(ms, r.known, r.paths, e), e.now)
    && r.sources == PutSources(db.sources, sources, e.now)
    && r.scanFailures == DropFailures(db.scanFailures, sources)
  }

  /** The rows of the manifest's file and of its transfer. */
  ghost predicate FileIsStored(db: Database, m: Manifest, e: Env, r: Database) {
    var h, key := Unhex(m.ed2kHash), e.normalize(m.sourcePath);
    && h in r.known.rows && TellsFile(r.known.rows[h], m, e.now) && KeepsFile(db.known, h, r.known.rows[h], e.now)
    && key in r.paths.rows
    && var id := r.known.rows[h].id;
    && id in r.transfers.rows && TellsTransfer(r.transfers.rows[id], m, r.paths.rows[key].id, e.now)
    && KeepsTransfer(db.transfers, id, r.transfers.rows[id], e.now)
  }

  /** The rows of the manifest's path and of the source under it. */
  ghost predicate PathIsStored(db: Database, m: Manifest, e: Env, r: Database) {
    var h, key := Unhex(m.ed2kHash), e.normalize(m.sourcePath);
    && key in r.paths.rows && TellsPath(db.paths, key, r.paths.rows[key], m, e.now)
    && h in r.known.rows
    && var id := r.paths.rows[key].id;
    && id in r.sources && TellsSource(db.sources, id, r.sources[id], m, r.known.rows[h].id, e.now)
    && id !in r.scanFailures
  }

  /** Rows of files and paths that the batch does not name are as they were. */
  ghost predicate OthersAreKept(db: Database, ms: seq<Manifest>, e: Env, r: Database) {
    && (forall h :: (forall m <- ms :: Unhex(m.ed2kHash) != h) ==> FileIsKept(db, h, r))
    && (forall key :: (forall m <- ms :: e.normalize(m.sourcePath) != key) ==> PathIsKept(db, key, r))
  }

  ghost predicate FileIsKept(db: Database, h: Bytes, r: Database) {
    && (h in r.known.rows <==> h in db.known.rows)
    && (h in r.known.rows ==>
          && r.known.rows[h] == db.known.rows[h]
          && var id := r.known.rows[h].id;
          (id in r.transfers.rows <==> id in db.transfers.rows)
          && (id in r.transfers.rows ==> r.transfers.rows[id] == db.transfers.rows[id]))
  }

  ghost predicate PathIsKept(db: Database, key: string, r: Database) {
    && (key in r.paths.rows <==> key in db.paths.rows)
    && (key in r.paths.rows ==>
          && r.paths.rows[key] == db.paths.rows[key]
          && var id := r.paths.rows[key].id;
          && (id in r.sources <==> id in db.sources) && (id in r.sources ==> r.sources[id] == db.sources[id])
          && (id in r.scanFailures <==> id in db.scanFailures))
  }

  /** All manifests are in the tables, and one has the id of a file exactly when it is of the file. */
  ghost predicate IdsTell(ms: seq<Manifest>, e: Env, r: Database) {
    && (forall m <- ms :: Unhex(m.ed2kHash) in r.known.rows && e.normalize(m.sourcePath) in r.paths.rows)
    && (forall m <- ms, h :: h in r.known.rows ==>
          (KnownId(r.known, m) == r.known.rows[h].id <==> Unhex(m.ed2kHash) == h))
    && (forall m <- ms, key :: key in r.paths.rows ==>
          (PathId(r.paths, m, e) == r.paths.rows[key].id <==> e.normalize(m.sourcePath) == key))
  }

  lemma IdsDoTell(db: Database, ms: seq<Manifest>, e: Env, r: Database)
    requires DistinctIds(db.known) && DistinctPathIds(db.paths) && KeyedTablesFilled(db, ms, e, r)
    ensures IdsTell(ms, e, r)
  {
    hide Unhex, PutTransfers, PutSources, DropFailures, PutPaths, PutKnowns, TransferRows, SourceRows;
    PutKnownsIds(db.known, KnownRows(ms), e.now);
    KnownRowsAt(ms);
    PathIdsStayDistinct(db.paths, PathRows(ms, e), e.now);
    forall m <- ms
      ensures Unhex(m.ed2kHash) in r.known.rows && e.normalize(m.sourcePath) in r.paths.rows
    {
      var i :| 0 <= i < |ms| && ms[i] == m;
      assert KnownRows(ms)[i].hash == Unhex(m.ed2kHash);
      PathIsPut(db.paths, ms, e, m);
    }
  }

  lemma {:induction false} PathIsPut(t: PathTable, ms: seq<Manifest>, e: Env, m: Manifest)
    requires m in ms
    ensures e.normalize(m.sourcePath) in PutPaths(t, PathRows(ms, e), e.now).rows
  {
    var rows := PathRows(ms, e);
    assert rows[..|rows| - 1] == PathRows(ms[..|ms| - 1], e);
    assert ms == ms[..|ms| - 1] + [ms[|ms| - 1]];
    if m != ms[|ms| - 1] {
      PathIsPut(t, ms[..|ms| - 1], e, m);
    }
  }

  lemma StoresFile(db: Database, ms: seq<Manifest>, e: Env, r: Database, i: nat)
    requires KeyedTablesFilled(db, ms, e, r) && IdsTell(ms, e, r) && IsLastOfFile(ms, i)
    ensures FileIsStored(db, ms[i], e, r)
  {
    hide Unhex, PutTransfers, PutSources, DropFailures, PutPaths, PutKnowns;
    hide TransferRows, SourceRows, PathRows, KnownRows;
    hide TellsFile, KeepsFile, TellsTransfer, KeepsTransfer;
    var h := Unhex(ms[i].ed2kHash);
    var ofFile := (m: Manifest) => Unhex(m.ed2kHash) == h;
    LastFound(ms, ofFile, i);
    KnownFilesAre(db.known, ms, e.now, h, ofFile);
    assert ms[i] in ms;
    var id := r.known.rows[h].id;
    var ofId := (m: Manifest) => KnownId(r.known, m) == id;
    LastFound(ms, ofId, i);
    TransfersAre(db.transfers, ms, r.known, r.paths, e, id, ofId);
  }

  lemma StoresPath(db: Database, ms: seq<Manifest>, e: Env, r: Database, i: nat)
    requires KeyedTablesFilled(db, ms, e, r) && IdsTell(ms, e, r) && IsLastOfPath(ms, i, e)
    ensures PathIsStored(db, ms[i], e, r)
  {
    hide Unhex, PutTransfers, PutSources, DropFailures, PutPaths, PutKnowns;
    hide TransferRows, SourceRows, PathRows, KnownRows;
    hide TellsPath, TellsSource;
    var key := e.normalize(ms[i].sourcePath);
    var ofPath := (m: Manifest) => e.normalize(m.sourcePath) == key;
    LastFound(ms, ofPath, i);
    PathsAre(db.paths, ms, e, key, ofPath);
    assert ms[i] in ms;
    var id := r.paths.rows[key].id;
    var ofId := (m: Manifest) => PathId(r.paths, m, e) == id;
    LastFound(ms, ofId, i);
    SourcesAre(db.sources, db.scanFailures, ms, r.known, r.paths, e, id, ofId);
  }

  lemma KeepsOtherFile(db: Database, ms: seq<Manifest>, e: Env, r: Database, h: Bytes)
    requires KeyedTablesFilled(db, ms, e, r) && IdsTell(ms, e, r) && forall m <- ms :: Unhex(m.ed2kHash) != h
    ensures FileIsKept(db, h, r)
  {
    hide Unhex, PutTransfers, PutSources, DropFailures, PutPaths, PutKnowns;
    hide TransferRows, SourceRows, PathRows, KnownRows;
    var ofFile := (m: Manifest) => Unhex(m.ed2kHash) == h;
    NoneFound(ms, ofFile);
    KnownFilesAre(db.known, ms, e.now, h, ofFile);
    if h in r.known.rows {
      var id := r.known.rows[h].id;
      var ofId := (m: Manifest) => KnownId(r.known, m) == id;
      NoneFound(ms, ofId);
      TransfersAre(db.transfers, ms, r.known, r.paths, e, id, ofId);
    }
  }

  lemma KeepsOtherPath(db: Database, ms: seq<Manifest>, e: Env, r: Database, key: string)
    requires KeyedTablesFilled(db, ms, e, r) && IdsTell(ms, e, r)
    requires forall m <- ms :: e.normalize(m.sourcePath) != key
    ensures PathIsKept(db, key, r)
  {
    hide Unhex, PutTransfers, PutSources, DropFailures, PutPaths, PutKnowns;
    hide TransferRows, SourceRows, PathRows, KnownRows;
    var ofPath := (m: Manifest) => e.normalize(m.sourcePath) == key;
    NoneFound(ms, ofPath);
    PathsAre(db.paths, ms, e, key, ofPath);
    if key in r.paths.rows {
      var id := r.paths.rows[key].id;
      var ofId := (m: Manifest) => PathId(r.paths, m, e) == id;
      NoneFound(ms, ofId);
      SourcesAre(db.sources, db.scanFailures, ms, r.known, r.paths, e, id, ofId);
    }
  }

  /** For every file and path of the batch the tables hold what its last manifest says; others are as they were. */
  ghost predicate BatchIsStored(db: Database, ms: seq<Manifest>, e: Env, r: Database) {
    && (forall i: nat :: IsLastOfFile(ms, i) ==> FileIsStored(db, ms[i], e, r))
    && (forall i: nat :: IsLastOfPath(ms, i, e) ==> PathIsStored(db, ms[i], e, r))
    && OthersAreKept(db, ms, e, r)
  }

  lemma FilledIsStored(db: Database, ms: seq<Manifest>, e: Env, r: Database)
    requires DistinctIds(db.known) && DistinctPathIds(db.paths) && KeyedTablesFilled(db, ms, e, r)
    ensures BatchIsStored(db, ms, e, r)
  {
    hide KeyedTablesFilled, IdsTell, FileIsStored, PathIsStored, FileIsKept, PathIsKept, Unhex;
    IdsDoTell(db, ms, e, r);
    forall i: nat | IsLastOfFile(ms, i)
      ensures FileIsStored(db, ms[i], e, r)
    {
      StoresFile(db, ms, e, r, i);
    }
    forall i: nat | IsLastOfPath(ms, i, e)
      ensures PathIsStored(db, ms[i], e, r)
    {
      StoresPath(db, ms, e, r, i);
    }
    forall h: Bytes | forall m <- ms :: Unhex(m.ed2kHash) != h
      ensures FileIsKept(db, h, r)
    {
      KeepsOtherFile(db, ms, e, r, h);
    }
    forall key: string | forall m <- ms :: e.normalize(m.sourcePath) != key
      ensures PathIsKept(db, key, r)
    {
      KeepsOtherPath(db, ms, e, r, key);
    }
  }

  /** Whichever writer seeds a batch, with or without piece rows, what its last manifests say is stored. */
  lemma SeedingStores(db: Database, ms: seq<Manifest>, seedPieces: bool, e: Env)
    requires DistinctIds(db.known) && DistinctPathIds(db.paths)
    ensures BatchIsStored(db, ms, e, SeedRows(db, ms, seedPieces, e))
    ensures BatchIsStored(db, ms, e, SeedBatch(db, ms, e))
  {
    hide SeedOne, SeedRows, TransferRows, SourceRows, PutPaths, PutKnowns, PutTransfers, PutSources, DropFailures;
    hide BatchIsStored, DistinctIds, DistinctPathIds;
    SeedRowsParents(db, ms, seedPieces, e);
    SeedRowsChildren(db, ms, seedPieces, e);
    FilledIsStored(db, ms, e, SeedRows(db, ms, seedPieces, e));
    FilledIsStored(db, ms, e, SeedBatch(db, ms, e));
  }

  // ---------------------------------------------------------------- rows that hang off a file

  lemma {:induction false} UnhexAllAt(hashes: seq<string>, k: nat)
    requires k < |hashes|
    ensures UnhexAll(hashes)[k] == Unhex(hashes[k])
  {
    hide Unhex;
    if k < |hashes| - 1 {
      UnhexAllAt(hashes[..|hashes| - 1], k);
    }
  }

  lemma {:induction false} PiecesAt(size: int, count: int, e: Env)
    ensures |PiecesOf(size, count, e)| == if count < 0 then 0 else count
    ensures forall k :: 0 <= k < count ==>
              PiecesOf(size, count, e)[k] == Piece("Verified", ExpectedPieceLength(size, ED2K_PART_SIZE, k), e.now)
  {
    hide ExpectedPieceLength;
    if count > 0 {
      PiecesAt(size, count - 1, e);
    }
  }

  /** The list of hashes stored under an id, by index. */
  ghost predicate HashesAre(t: Parts<Bytes>, id: nat, hashes: seq<string>) {
    && (forall k: nat :: (id, k) in t <==> k < |hashes|)
    && (forall k: nat :: k < |hashes| ==> t[(id, k)] == Unhex(hashes[k]))
  }

  /** The hashes stored under an id begin with a list. */
  ghost predicate HashesBegin(t: Parts<Bytes>, id: nat, hashes: seq<string>) {
    forall k: nat :: k < |hashes| ==> (id, k) in t && t[(id, k)] == Unhex(hashes[k])
  }

  /** The piece rows of a transfer: one for each part, all verified, the last one as long as what is left. */
  ghost predicate PiecesAre(t: Parts<Piece>, id: nat, size: int, seeded: bool, now: int) {
    var count := if seeded && size != 0 then (size + 9_727_999) / 9_728_000 else 0;
    && (forall k: nat :: (id, k) in t <==> k < count)
    && (forall k: nat :: k < count ==>
          t[(id, k)] == Piece("Verified", if (k + 1) * 9_728_000 <= size then 9_728_000 else size - k * 9_728_000, now))
  }

  /** What the row-by-row writer leaves under the id of the manifest's file and of its transfer. */
  ghost predicate ChildrenAreStored(m: Manifest, seedPieces: bool, e: Env, r: Database) {
    var h := Unhex(m.ed2kHash);
    && h in r.known.rows
    && var id := r.known.rows[h].id;
    && id in r.transfers.rows
    && HashesAre(r.md4, id, m.md4) && HashesAre(r.aich, id, m.aich)
    && (forall x: Range :: x.parent == id ==> (x in r.ranges <==> x == Range(id, 0, m.size, e.now)))
    && PiecesAre(r.pieces, r.transfers.rows[id].id, m.size, seedPieces, e.now)
  }

  lemma {:induction false} LastPieceRow(ms: seq<Manifest>, known: KnownTable, transfers: TransferTable,
                                        seedPieces: bool, e: Env, id: nat, ofId: Manifest -> bool)
    requires forall m :: ofId(m) <==> TransferId(transfers, KnownId(known, m)) == id
    ensures var last := LastWith(ms, ofId);
            LastOf(PieceRows(ms, known, transfers, seedPieces, e), id)
            == if last.Some? then Some(PieceRowsOf(last.value, seedPieces, e)) else None
  {
    hide KnownId, TransferId, PieceRowsOf;
    if ms != [] {
      var init := ms[..|ms| - 1];
      LastPieceRow(init, known, transfers, seedPieces, e, id, ofId);
      var rows := PieceRows(ms, known, transfers, seedPieces, e);
      assert rows[..|rows| - 1] == PieceRows(init, known, transfers, seedPieces, e);
    }
  }

  lemma {:induction false} LastOfFileIs(ms: seq<Manifest>, i: nat)
    requires IsLastOfFile(ms, i)
    ensures LastOfFile(ms, Unhex(ms[i].ed2kHash)) == Some(ms[i])
  {
    hide Unhex;
    if i < |ms| - 1 {
      assert IsLastOfFile(ms[..|ms| - 1], i);
      LastOfFileIs(ms[..|ms| - 1], i);
    }
  }

  lemma StoresHashes(t: Parts<Bytes>, families: seq<Family<Bytes>>, id: nat, hashes: seq<string>)
    requires LastOf(families, id) == Some(UnhexAll(hashes))
    ensures HashesAre(ReplaceAll(t, families), id, hashes) && HashesBegin(MergeAll(t, families), id, hashes)
  {
    hide Unhex, ReplaceAll, MergeAll;
    forall k: nat
      ensures (id, k) in ReplaceAll(t, families) <==> k < |hashes|
      ensures k < |hashes| ==> ReplaceAll(t, families)[(id, k)] == Unhex(hashes[k])
      ensures k < |hashes| ==> (id, k) in MergeAll(t, families) && MergeAll(t, families)[(id, k)] == Unhex(hashes[k])
    {
      ReplaceAllAt(t, families, (id, k));
      MergeAllAt(t, families, (id, k));
      if k < |hashes| {
        UnhexAllAt(hashes, k);
      }
    }
  }

  lemma StoresPieces(t: Parts<Piece>, families: seq<Family<Piece>>, id: nat, m: Manifest, seedPieces: bool, e: Env)
    requires LastOf(families, id) == Some(PieceRowsOf(m, seedPieces, e))
    ensures PiecesAre(ReplaceAll(t, families), id, m.size, seedPieces, e.now)
  {
    hide ReplaceAll;
    PiecesAt(m.size, PieceCount(m.size, ED2K_PART_SIZE), e);
    forall k: nat
      ensures (id, k) in ReplaceAll(t, families) <==> k < |PieceRowsOf(m, seedPieces, e)|
      ensures k < |PieceRowsOf(m, seedPieces, e)| ==>
                ReplaceAll(t, families)[(id, k)] == PieceRowsOf(m, seedPieces, e)[k]
    {
      ReplaceAllAt(t, families, (id, k));
    }
    forall k: nat | k < PieceCount(m.size, ED2K_PART_SIZE)
      ensures ExpectedPieceLength(m.size, ED2K_PART_SIZE, k)
           == if (k + 1) * 9_728_000 <= m.size then 9_728_000 else m.size - k * 9_728_000
    {
    }
  }

  /** The ids under which the rows of a manifest's file hang belong to no other file of the batch. */
  ghost predicate OwnIds(ms: seq<Manifest>, r: Database, m: Manifest) {
    forall n <- ms ::
      && (KnownId(r.known, n) == KnownId(r.known, m) ==> HashOf(n) == HashOf(m))
      && (TransferId(r.transfers, KnownId(r.known, n)) == TransferId(r.transfers, KnownId(r.known, m)) ==>
            KnownId(r.known, n) == KnownId(r.known, m))
  }

  lemma IdsAreOwn(db: Database, ms: seq<Manifest>, seedPieces: bool, e: Env, m: Manifest)
    requires DistinctIds(db.known) && DistinctPathIds(db.paths) && DistinctTransferIds(db.transfers) && m in ms
    ensures var r := SeedRows(db, ms, seedPieces, e);
            && OwnIds(ms, r, m)
            && HashOf(m) in r.known.rows && KnownId(r.known, m) in r.transfers.rows
  {
    hide SeedOne, SeedRows, TransferRows, SourceRows, Unhex;
    hide PutPaths, PutKnowns, PutTransfers, PutSources, DropFailures;
    var r := SeedRows(db, ms, seedPieces, e);
    SeedRowsParents(db, ms, seedPieces, e);
    SeedRowsChildren(db, ms, seedPieces, e);
    SeedRowsCovers(db, ms, seedPieces, e);
    IdsDoTell(db, ms, e, r);
    TransferIdsStayDistinct(db.transfers, TransferRows(ms, r.known, r.paths, e), e.now);
    forall n <- ms
      ensures HashOf(n) in r.known.rows && KnownId(r.known, n) in r.transfers.rows
    {
      var i :| 0 <= i < |ms| && ms[i] == n;
    }
    hide KeyedTablesFilled;
  }

  /** The row-by-row writer leaves exactly the hashes, range and pieces of a file's last manifest. */
  lemma RowsStoreChildren(db: Database, ms: seq<Manifest>, seedPieces: bool, e: Env, i: nat)
    requires DistinctIds(db.known) && DistinctPathIds(db.paths) && DistinctTransferIds(db.transfers)
    requires IsLastOfFile(ms, i)
    ensures ChildrenAreStored(ms[i], seedPieces, e, SeedRows(db, ms, seedPieces, e))
  {
    hide SeedOne, SeedRows, TransferRows, SourceRows, PutTransfers, PutSources, DropFailures, Unhex, UnhexAll;
    hide ReplaceAll, ReplaceRanges, Md4Rows, AichRows, RangeRows, PieceRows;
    hide HashesAre, PiecesAre, PieceRowsOf, LastRange;
    var r, m := SeedRows(db, ms, seedPieces, e), ms[i];
    IdsAreOwn(db, ms, seedPieces, e, m);
    SeedRowsChildren(db, ms, seedPieces, e);
    LastOfFileIs(ms, i);
    var id := KnownId(r.known, m);
    LastMd4Row(ms, r.known, m);
    StoresHashes(db.md4, Md4Rows(ms, r.known), id, m.md4);
    LastAichRow(ms, r.known, m);
    StoresHashes(db.aich, AichRows(ms, r.known), id, m.aich);
    LastRangeRow(ms, r.known, m, e);
    forall x: Range | x.parent == id
      ensures x in r.ranges <==> x == Range(id, 0, m.size, e.now)
    {
      ReplaceRangesAt(db.ranges, RangeRows(ms, r.known, e), x);
    }
    var tid := TransferId(r.transfers, id);
    var ofId := (n: Manifest) => TransferId(r.transfers, KnownId(r.known, n)) == tid;
    forall j | i < j < |ms|
      ensures !ofId(ms[j])
    {
      assert ms[j] in ms;
    }
    LastFound(ms, ofId, i);
    LastPieceRow(ms, r.known, r.transfers, seedPieces, e, tid, ofId);
    StoresPieces(db.pieces, PieceRows(ms, r.known, r.transfers, seedPieces, e), tid, m, seedPieces, e);
  }

  /** The bulk writer leaves them too, in front of what it does not clear away, and no pieces of its own. */
  lemma BatchStoresChildren(db: Database, ms: seq<Manifest>, e: Env, i: nat)
    requires DistinctIds(db.known) && DistinctPathIds(db.paths) && IsLastOfFile(ms, i)
    ensures var r, m := SeedBatch(db, ms, e), ms[i];
            && Unhex(m.ed2kHash) in r.known.rows
            && var id := r.known.rows[Unhex(m.ed2kHash)].id;
            && HashesBegin(r.md4, id, m.md4) && HashesBegin(r.aich, id, m.aich)
            && Range(id, 0, m.size, e.now) in r.ranges && (forall x <- db.ranges :: x in r.ranges)
            && r.pieces == db.pieces
  {
    hide TransferRows, SourceRows, PutTransfers, PutSources, DropFailures, PutPaths, PutKnowns, Unhex, UnhexAll;
    hide MergeAll, Md4Rows, AichRows, RangeRows, HashesBegin;
    var r, m := SeedBatch(db, ms, e), ms[i];
    IdsDoTell(db, ms, e, r);
    LastOfFileIs(ms, i);
    assert m in ms;
    var id := KnownId(r.known, m);
    LastMd4Row(ms, r.known, m);
    StoresHashes(db.md4, Md4Rows(ms, r.known), id, m.md4);
    LastAichRow(ms, r.known, m);
    StoresHashes(db.aich, AichRows(ms, r.known), id, m.aich);
    LastRangeRow(ms, r.known, m, e);
    LastRangeIsAdded(RangeRows(ms, r.known, e), id);
  }

  /** Nothing is written under the id of a file that no manifest is of. */
  lemma OthersAreNotWritten(ms: seq<Manifest>, e: Env, known: KnownTable, id: nat)
    requires forall i :: 0 <= i < |ms| ==> KnownId(known, ms[i]) != id
    ensures LastOf(Md4Rows(ms, known), id).None? && LongestOf(Md4Rows(ms, known), id) == 0
    ensures LastOf(AichRows(ms, known), id).None? && LongestOf(AichRows(ms, known), id) == 0
    ensures LastRange(RangeRows(ms, known, e), id).None?
    ensures forall x :: x in RangeRows(ms, known, e) ==> x.parent != id
  {
    hide Md4Rows, AichRows, RangeRows, LastOf, LongestOf, LastRange, UnhexAll, KnownId;
    var md4, aich, ranges := Md4Rows(ms, known), AichRows(ms, known), RangeRows(ms, known, e);
    Md4RowsAt(ms, known);
    AichRowsAt(ms, known);
    RangeRowsAt(ms, known, e);
    LastIsMember(md4, id);
    LastIsMember(aich, id);
    LastRangeIsAdded(ranges, id);
    LongestBounds(md4, id);
    LongestBounds(aich, id);
  }

  /** Hashes and ranges under the id of any other file are as they were, whichever writer seeds. */
  lemma ChildrenOfOthersAreKept(db: Database, ms: seq<Manifest>, seedPieces: bool, e: Env, r: Database, h: Bytes)
    requires DistinctIds(db.known) && DistinctPathIds(db.paths)
    requires r == SeedRows(db, ms, seedPieces, e) || r == SeedBatch(db, ms, e)
    requires h in r.known.rows && forall m <- ms :: Unhex(m.ed2kHash) != h
    ensures var id := r.known.rows[h].id;
            && (forall k: nat :: (id, k) in r.md4 <==> (id, k) in db.md4)
            && (forall k: nat :: (id, k) in r.aich <==> (id, k) in db.aich)
            && (forall k: nat :: (id, k) in r.md4 ==> r.md4[(id, k)] == db.md4[(id, k)])
            && (forall k: nat :: (id, k) in r.aich ==> r.aich[(id, k)] == db.aich[(id, k)])
            && (forall x: Range :: x.parent == id ==> (x in r.ranges <==> x in db.ranges))
  {
    hide SeedOne, SeedRows, TransferRows, SourceRows, Unhex;
    hide PutTransfers, PutSources, DropFailures, PutPaths, PutKnowns;
    hide MergeAll, ReplaceAll, ReplaceRanges, Md4Rows, AichRows, RangeRows, LastOf, LongestOf, LastRange, UnhexAll;
    SeedRowsParents(db, ms, seedPieces, e);
    SeedRowsChildren(db, ms, seedPieces, e);
    IdsDoTell(db, ms, e, r);
    var id := r.known.rows[h].id;
    var md4, aich, ranges := Md4Rows(ms, r.known), AichRows(ms, r.known), RangeRows(ms, r.known, e);
    assert forall i :: 0 <= i < |ms| ==> ms[i] in ms && KnownId(r.known, ms[i]) != id;
    OthersAreNotWritten(ms, e, r.known, id);
    forall k: nat
      ensures ((id, k) in r.md4 <==> (id, k) in db.md4) && ((id, k) in r.aich <==> (id, k) in db.aich)
      ensures (id, k) in r.md4 ==> r.md4[(id, k)] == db.md4[(id, k)]
      ensures (id, k) in r.aich ==> r.aich[(id, k)] == db.aich[(id, k)]
    {
      ReplaceAllAt(db.md4, md4, (id, k));
      MergeAllAt(db.md4, md4, (id, k));
      ReplaceAllAt(db.aich, aich, (id, k));
      MergeAllAt(db.aich, aich, (id, k));
    }
    forall x: Range | x.parent == id
      ensures x in r.ranges <==> x in db.ranges
    {
      ReplaceRangesAt(db.ranges, ranges, x);
    }
  }
}
