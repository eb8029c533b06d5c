/** The metadata store: the seeding calls as they run against it, statement by statement. */
module MetadataStore {
  import opened Outcomes
  import opened Hex
  import opened PieceArithmetic
  import opened RowTables
  import opened ShareSeeding

  lemma ToHexInjective(a: Bytes, b: Bytes)
    requires ToHex(a) == ToHex(b)
    ensures a == b
  {
    FromHexToHex(a);
    FromHexToHex(b);
  }

  lemma SpellingsDiffer(t: KnownTable)
    ensures forall a, b :: a in t.rows && b in t.rows && ToHex(a) == ToHex(b) ==> a == b
  {
    forall a, b | a in t.rows && b in t.rows && ToHex(a) == ToHex(b)
      ensures a == b
    {
      ToHexInjective(a, b);
    }
  }

  /** The known-file ids by the lower-case hexadecimal spelling of their hash. */
  function KnownIds(t: KnownTable): map<string, nat> {
    SpellingsDiffer(t);
    map h | h in t.rows :: ToHex(h) := t.rows[h].id
  }

  /** A spelling of a stored hash finds its id exactly when it is the lower-case one. */
  lemma KnownIdsFind(t: KnownTable, s: string)
    requires FromHex(s).Some? && Unhex(s) in t.rows
    ensures s in KnownIds(t) <==> IsCanonical(s)
    ensures s in KnownIds(t) ==> KnownIds(t)[s] == t.rows[Unhex(s)].id
  {
    hide FromHex, ToHex;
    var found := Unhex(s);
    SpellingsDiffer(t);
    if s in KnownIds(t) {
      var h :| h in t.rows && ToHex(h) == s;
      FromHexToHex(h);
      assert h == found && KnownIds(t)[ToHex(h)] == t.rows[h].id;
    }
    if IsCanonical(s) {
      assert ToHex(found) == s && found in t.rows;
    }
  }

  lemma KnownIdFinds(t: KnownTable, m: Manifest)
    requires FromHex(m.ed2kHash).Some? && HashOf(m) in t.rows
    ensures m.ed2kHash in KnownIds(t) <==> IsCanonical(m.ed2kHash)
    ensures m.ed2kHash in KnownIds(t) ==> KnownIds(t)[m.ed2kHash] == KnownId(t, m)
  {
    KnownIdsFind(t, m.ed2kHash);
  }

  /** The part of a manifest that the known-file row decodes. */
  predicate FileDecodes(m: Manifest) {
    FromHex(m.ed2kHash).Some? && (m.aichRoot.Some? ==> FromHex(m.aichRoot.value).Some?)
  }

  lemma {:induction false} KnownAfterPut(t: KnownTable, ms: seq<Manifest>, now: int)
    ensures AllKnown(ms, PutKnowns(t, KnownRows(ms), now))
  {
    hide HashOf, FactsOf;
    if ms != [] {
      KnownAfterPut(t, ms[..|ms| - 1], now);
    }
  }

  lemma UnhexAllSnoc(hashes: seq<string>, n: nat)
    requires n < |hashes|
    ensures UnhexAll(hashes[..n + 1]) == UnhexAll(hashes[..n]) + [Unhex(hashes[n])]
  {
    assert hashes[..n + 1][..n] == hashes[..n];
  }

  lemma InsertPartsSnoc<V>(t: Parts<V>, parent: nat, values: seq<V>, v: V)
    ensures InsertParts(t, parent, values + [v]) == InsertParts(t, parent, values)[(parent, |values|) := v]
  {
    assert (values + [v])[..|values|] == values;
  }

  /** Inserts one row for each part hash of a file. */
  method InsertHashRows(t: Parts<Bytes>, knownId: nat, hashes: seq<string>) returns (r: Result<Parts<Bytes>>)
    ensures r.Ok? <==> AllDecode(hashes)
    ensures r.Ok? ==> r.value == InsertParts(t, knownId, UnhexAll(hashes))
  {
    var rows := t;
    for index := 0 to |hashes|
      invariant AllDecode(hashes[..index])
      invariant rows == InsertParts(t, knownId, UnhexAll(hashes[..index]))
    {
      var hash := FromHex(hashes[index]);
      if hash.None? {
        return Err(BadHex);
      }
      UnhexAllSnoc(hashes, index);
      InsertPartsSnoc(t, knownId, UnhexAll(hashes[..index]), hash.value);
      rows := rows[(knownId, index) := hash.value];
    }
    assert hashes[..|hashes|] == hashes;
    return Ok(rows);
  }

  /** Inserts one verified row for each piece of a file. */
  method InsertPieceRows(t: Parts<Piece>, transferId: nat, size: int, count: int, e: Env) returns (rows: Parts<Piece>)
    ensures rows == InsertParts(t, transferId, PiecesOf(size, count, e))
  {
    rows := t;
    var n := if count < 0 then 0 else count;
    for index := 0 to n
      invariant |PiecesOf(size, index, e)| == index
      invariant rows == InsertParts(t, transferId, PiecesOf(size, index, e))
    {
      var piece := Piece("Verified", ExpectedPieceLength(size, ED2K_PART_SIZE, index), e.now);
      InsertPartsSnoc(t, transferId, PiecesOf(size, index, e), piece);
      rows := rows[(transferId, index) := piece];
    }
  }

  class Store {
    var db: Database

    constructor (db: Database)
      ensures this.db == db
    {
      this.db := db;
    }

    /** Seeds one manifest; what it did stays in the open transaction. */
    method SeedManifest(m: Manifest, seedPieceRows: bool, e: Env) returns (r: Result<()>)
      modifies this
      ensures r.Ok? <==> Decodes(m)
      ensures r.Ok? ==> db == SeedOne(old(db), m, seedPieceRows, e)
    {
      var hash := FromHex(m.ed2kHash);
      if hash.None? {
        return Err(BadHex);
      }
      var pieceCount := PieceCount(m.size, ED2K_PART_SIZE);
      db := db.(paths := PutPath(db.paths, PathValuesOf(m, e), e.now));
      var pathId := PathId(db.paths, m, e);
      if m.aichRoot.Some? && m.aichRoot.value != "" && FromHex(m.aichRoot.value).None? {
        return Err(BadHex);
      }
      db := db.(known := PutKnown(db.known, KnownValues(hash.value, FactsOf(m)), e.now));
      var knownId := KnownId(db.known, m);
      var transfer := TransferValues(knownId, m.ed2kHash, pathId, m.sourceMtimeMs);
      db := db.(transfers := PutTransfer(db.transfers, transfer, e.now));
      var transferId := TransferId(db.transfers, knownId);
      db := db.(sources := PutSource(db.sources, SourceValues(knownId, pathId, m.size, m.sourceMtimeMs), e.now));
      db := db.(scanFailures := db.scanFailures - {pathId});
      db := db.(pieces := DeleteParts(db.pieces, transferId));
      db := db.(md4 := DeleteParts(db.md4, knownId));
      db := db.(aich := DeleteParts(db.aich, knownId));
      db := db.(ranges := DeleteRanges(db.ranges, knownId));
      if seedPieceRows {
        var pieces := InsertPieceRows(db.pieces, transferId, m.size, pieceCount, e);
        db := db.(pieces := pieces);
      }
      var md4 :- InsertHashRows(db.md4, knownId, m.md4);
      db := db.(md4 := md4);
      var aich :- InsertHashRows(db.aich, knownId, m.aich);
      db := db.(aich := aich);
      db := db.(ranges := db.ranges + [Range(knownId, 0, m.size, e.now)]);
      return Ok(());
    }

    /** Writes the local path of every manifest of a batch. */
    method UpsertPaths(ms: seq<Manifest>, e: Env)
      modifies this
      ensures db == old(db).(paths := PutPaths(old(db).paths, PathRows(ms, e), e.now))
    {
      var rows: seq<PathValues> := [];
      for i := 0 to |ms|
        invariant rows == PathRows(ms[..i], e)
      {
        assert ms[..i + 1][..i] == ms[..i];
        rows := rows + [PathValuesOf(ms[i], e)];
      }
      assert ms[..|ms|] == ms;
      for i := 0 to |rows|
        invariant db == old(db).(paths := PutPaths(old(db).paths, rows[..i], e.now))
      {
        assert rows[..i + 1][..i] == rows[..i];
        db := db.(paths := PutPath(db.paths, rows[i], e.now));
      }
      assert rows[..|rows|] == rows;
    }

    /** Writes the known file of every manifest of a batch. */
    method UpsertKnown(ms: seq<Manifest>, e: Env) returns (r: Result<()>)
      modifies this
      ensures r.Ok? <==> forall i :: 0 <= i < |ms| ==> FileDecodes(ms[i])
      ensures r.Ok? ==> db == old(db).(known := PutKnowns(old(db).known, KnownRows(ms), e.now))
    {
      assert FromHex("").Some?;
      hide FromHex, Unhex, PutKnown, IsCanonical;
      var rows: seq<KnownValues> := [];
      for i := 0 to |ms|
        invariant rows == KnownRows(ms[..i]) && db == old(db)
        invariant forall j :: 0 <= j < i ==> FileDecodes(ms[j])
      {
        var m := ms[i];
        assert ms[..i + 1][..i] == ms[..i];
        if FromHex(m.ed2kHash).None? {
          return Err(BadHex);
        }
        if m.aichRoot.Some? && m.aichRoot.value != "" && FromHex(m.aichRoot.value).None? {
          return Err(BadHex);
        }
        rows := rows + [KnownValuesOf(m)];
      }
      assert ms[..|ms|] == ms;
      for i := 0 to |rows|
        invariant db == old(db).(known := PutKnowns(old(db).known, rows[..i], e.now))
      {
        assert rows[..i + 1][..i] == rows[..i];
        db := db.(known := PutKnown(db.known, rows[i], e.now));
      }
      assert rows[..|rows|] == rows;
      return Ok(());
    }

    /** Seeds a whole batch, one table after the other. */
    method SeedManifestsFast(ms: seq<Manifest>, e: Env) returns (r: Result<()>)
      modifies this
      ensures r.Ok? <==> forall i :: 0 <= i < |ms| ==> Decodes(ms[i]) && IsCanonical(ms[i].ed2kHash)
      ensures r.Ok? ==> db == SeedBatch(old(db), ms, e)
    {
      hide FromHex, PutKnowns, KnownRows, PutPaths, PathRows, AllDecode, IsCanonical;
      UpsertPaths(ms, e);
      r := UpsertKnown(ms, e);
      if r.Err? {
        return;
      }
      KnownAfterPut(old(db).known, ms, e.now);
      r := SeedChildren(ms, e);
    }

    /** The tables that hang off paths and known files, with the ids read back from those two. */
    method SeedChildren(ms: seq<Manifest>, e: Env) returns (r: Result<()>)
      requires AllKnown(ms, db.known)
      requires forall i :: 0 <= i < |ms| ==> FromHex(ms[i].ed2kHash).Some?
      modifies this
      ensures r.Ok? <==>
              forall i :: 0 <= i < |ms| ==> IsCanonical(ms[i].ed2kHash) && AllDecode(ms[i].md4) && AllDecode(ms[i].aich)
      ensures r.Ok? ==> db == WithChildren(old(db), ms, e)
    {
      hide FromHex, KnownIds, IsCanonical, PathId, KnownId, UnhexAll;
      var known, paths := db.known, db.paths;
      var knownIds := KnownIds(known);
      var transferRows: seq<TransferValues> := [];
      var sourceRows: seq<SourceValues> := [];
      var rangeRows: seq<Range> := [];
      var md4Rows: seq<Family<Bytes>> := [];
      var aichRows: seq<Family<Bytes>> := [];
      for i := 0 to |ms|
        invariant db == old(db)
        invariant transferRows == TransferRows(ms[..i], known, paths, e)
        invariant sourceRows == SourceRows(ms[..i], known, paths, e)
        invariant rangeRows == RangeRows(ms[..i], known, e)
        invariant md4Rows == Md4Rows(ms[..i], known) && aichRows == AichRows(ms[..i], known)
        invariant forall j :: 0 <= j < i ==>
                    IsCanonical(ms[j].ed2kHash) && AllDecode(ms[j].md4) && AllDecode(ms[j].aich)
      {
        var m := ms[i];
        assert ms[..i + 1][..i] == ms[..i];
        assert HashOf(m) in known.rows;
        KnownIdFinds(known, m);
        if m.ed2kHash !in knownIds {
          return Err(MissingKey);
        }
        var knownId := knownIds[m.ed2kHash];
        var pathId := PathId(paths, m, e);
        transferRows := transferRows + [TransferValues(knownId, m.ed2kHash, pathId, m.sourceMtimeMs)];
        sourceRows := sourceRows + [SourceValues(knownId, pathId, m.size, m.sourceMtimeMs)];
        rangeRows := rangeRows + [Range(knownId, 0, m.size, e.now)];
        var md4 :- DecodeAll(m.md4);
        md4Rows := md4Rows + [Family(knownId, md4)];
        var aich :- DecodeAll(m.aich);
        aichRows := aichRows + [Family(knownId, aich)];
      }
      assert ms[..|ms|] == ms;
      db := db.(transfers := PutTransfers(db.transfers, transferRows, e.now));
      db := db.(sources := PutSources(db.sources, sourceRows, e.now));
      db := db.(scanFailures := DropFailures(db.scanFailures, sourceRows));
      db := db.(md4 := MergeAll(db.md4, md4Rows));
      db := db.(aich := MergeAll(db.aich, aichRows));
      db := db.(ranges := db.ranges + rangeRows);
      return Ok(());
    }

    /** Seeds many completed share-in-place manifests in one transaction: all of them or none. */
    method SeedShareInPlaceManifests(ms: seq<Manifest>, seedPieceRows: bool, e: Env) returns (r: Result<()>)
      modifies this
      ensures r.Ok? <==>
              forall i :: 0 <= i < |ms| ==> Decodes(ms[i]) && (!seedPieceRows ==> IsCanonical(ms[i].ed2kHash))
      ensures r.Err? ==> db == old(db)
      ensures r.Ok? && seedPieceRows ==> db == SeedRows(old(db), ms, true, e)
      ensures r.Ok? && !seedPieceRows ==> db == SeedBatch(old(db), ms, e)
    {
      hide SeedOne, SeedBatch, FromHex, Decodes, IsCanonical;
      var saved := db;
      if !seedPieceRows {
        r := SeedManifestsFast(ms, e);
        if r.Err? {
          db := saved;
        }
        return;
      }
      for i := 0 to |ms|
        invariant db == SeedRows(old(db), ms[..i], true, e)
        invariant forall j :: 0 <= j < i ==> Decodes(ms[j])
      {
        assert ms[..i + 1][..i] == ms[..i];
        var one := SeedManifest(ms[i], true, e);
        if one.Err? {
          db := saved;
          return one;
        }
      }
      assert ms[..|ms|] == ms;
      return Ok(());
    }
  }

  /** Decodes the part hashes of one manifest. */
  method DecodeAll(hashes: seq<string>) returns (r: Result<seq<Bytes>>)
    ensures r.Ok? <==> AllDecode(hashes)
    ensures r.Ok? ==> r.value == UnhexAll(hashes)
  {
    var decoded: seq<Bytes> := [];
    for i := 0 to |hashes|
      invariant AllDecode(hashes[..i]) && decoded == UnhexAll(hashes[..i])
    {
      var hash := FromHex(hashes[i]);
      if hash.None? {
        return Err(BadHex);
      }
      UnhexAllSnoc(hashes, i);
      decoded := decoded + [hash.value];
    }
    assert hashes[..|hashes|] == hashes;
    return Ok(decoded);
  }

  /** What the second half of a batch does, once its paths and known files are in. */
  function WithChildren(db: Database, ms: seq<Manifest>, e: Env): Database {
    var sources := SourceRows(ms, db.known, db.paths, e);
    db.(transfers := PutTransfers(db.transfers, TransferRows(ms, db.known, db.paths, e), e.now),
        sources := PutSources(db.sources, sources, e.now),
        scanFailures := DropFailures(db.scanFailures, sources),
        md4 := MergeAll(db.md4, Md4Rows(ms, db.known)),
        aich := MergeAll(db.aich, AichRows(ms, db.known)),
        ranges := db.ranges + RangeRows(ms, db.known, e))
  }
}
