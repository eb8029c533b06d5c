/** When the bulk writer may stand in for the row-by-row writer: the promise made for fresh migration profiles. */
module SeedAgreement {
  import opened Outcomes
  import opened Hex
  import opened RowTables
  import opened ShareSeeding

  /** Row ids are distinct and already handed out, and child rows point at ids that were handed out. */
  ghost predicate ValidIds(db: Database) {
    && DistinctIds(db.known)
    && (forall k :: k in db.transfers.rows ==> k < db.known.next && db.transfers.rows[k].id < db.transfers.next)
    && (forall k: (nat, nat) :: k in db.md4 ==> k.0 < db.known.next)
    && (forall k: (nat, nat) :: k in db.aich ==> k.0 < db.known.next)
    && (forall k: (nat, nat) :: k in db.pieces ==> k.0 < db.transfers.next)
    && (forall r :: r in db.ranges ==> r.parent < db.known.next)
  }

  ghost predicate DistinctIds(t: KnownTable) {
    && (forall h :: h in t.rows ==> t.rows[h].id < t.next)
    && (forall g, h :: g in t.rows && h in t.rows && t.rows[g].id == t.rows[h].id ==> g == h)
  }

  /** Manifests of the same file tell the same size and the same part hashes. */
  ghost predicate Consistent(ms: seq<Manifest>) {
    forall i, j :: 0 <= i < |ms| && 0 <= j < |ms| && HashOf(ms[i]) == HashOf(ms[j]) ==>
      ms[i].size == ms[j].size && UnhexAll(ms[i].md4) == UnhexAll(ms[j].md4)
      && UnhexAll(ms[i].aich) == UnhexAll(ms[j].aich)
  }

  /** `id` is the row id of a known file of the batch. */
  ghost predicate IsBatchFile(db: Database, ms: seq<Manifest>, id: nat) {
    exists i :: 0 <= i < |ms| && HashOf(ms[i]) in db.known.rows && db.known.rows[HashOf(ms[i])].id == id
  }

  /** No part hash, verified range or piece is recorded yet for any file of the batch. */
  ghost predicate NothingRecorded(db: Database, ms: seq<Manifest>) {
    && (forall k: (nat, nat) :: k in db.md4 ==> !IsBatchFile(db, ms, k.0))
    && (forall k: (nat, nat) :: k in db.aich ==> !IsBatchFile(db, ms, k.0))
    && (forall r :: r in db.ranges ==> !IsBatchFile(db, ms, r.parent))
    && (forall k: (nat, nat), f :: k in db.pieces && f in db.transfers.rows && db.transfers.rows[f].id == k.0 ==>
          !IsBatchFile(db, ms, f))
  }

  // ---------------------------------------------------------------- ids handed out by a batch

  /** `r` keeps the ids of `t` and gives its other rows ids that `t` had not handed out. */
  ghost predicate KnownGrew(t: KnownTable, r: KnownTable) {
    && DistinctIds(r) && KnownIdsKept(t, r) && t.next <= r.next
    && (forall h :: h in r.rows && h !in t.rows ==> t.next <= r.rows[h].id)
  }

  ghost predicate TransfersGrew(t: TransferTable, r: TransferTable) {
    && TransferIdsKept(t, r) && t.next <= r.next
    && (forall k :: k in r.rows && k !in t.rows ==> t.next <= r.rows[k].id)
  }

  lemma PutKnownGrows(t: KnownTable, r: KnownTable, v: KnownValues, now: int)
    requires KnownGrew(t, r)
    ensures KnownGrew(t, PutKnown(r, v, now))
    ensures PutKnown(r, v, now).rows.Keys == r.rows.Keys + {v.hash}
  {
    var after := PutKnown(r, v, now);
    forall h | h in after.rows
      ensures h in r.rows ==> after.rows[h].id == r.rows[h].id
      ensures h !in r.rows ==> h == v.hash && after.rows[h].id == r.next && after.next == r.next + 1
    {
    }
    hide PutKnown;
  }

  lemma {:induction false} PutKnownsIds(t: KnownTable, vs: seq<KnownValues>, now: int)
    requires DistinctIds(t)
    ensures KnownGrew(t, PutKnowns(t, vs, now))
    ensures forall i :: 0 <= i < |vs| ==> vs[i].hash in PutKnowns(t, vs, now).rows
  {
    if vs != [] {
      hide PutKnown, KnownGrew;
      var n := |vs| - 1;
      var init, before := vs[..n], PutKnowns(t, vs[..n], now);
      PutKnownsIds(t, init, now);
      PutKnownGrows(t, before, vs[n], now);
      assert PutKnowns(t, vs, now) == PutKnown(before, vs[n], now);
      assert forall i :: 0 <= i < n ==> vs[i].hash == init[i].hash;
      hide PutKnowns, DistinctIds;
    }
  }

  lemma PutTransferGrows(t: TransferTable, r: TransferTable, v: TransferValues, now: int)
    requires TransfersGrew(t, r)
    ensures TransfersGrew(t, PutTransfer(r, v, now))
    ensures PutTransfer(r, v, now).rows.Keys == r.rows.Keys + {v.knownId}
  {
  }

  lemma {:induction false} PutTransfersIds(t: TransferTable, vs: seq<TransferValues>, now: int)
    ensures TransfersGrew(t, PutTransfers(t, vs, now))
    ensures forall i :: 0 <= i < |vs| ==> vs[i].knownId in PutTransfers(t, vs, now).rows
  {
    if vs != [] {
      hide PutTransfer, TransfersGrew;
      PutTransfersIds(t, vs[..|vs| - 1], now);
      PutTransferGrows(t, PutTransfers(t, vs[..|vs| - 1], now), vs[|vs| - 1], now);
    }
  }

  lemma {:induction false} KnownRowsAt(ms: seq<Manifest>)
    ensures |KnownRows(ms)| == |ms| && forall i :: 0 <= i < |ms| ==> KnownRows(ms)[i].hash == HashOf(ms[i])
  {
    hide HashOf, FactsOf;
    if ms != [] {
      KnownRowsAt(ms[..|ms| - 1]);
    }
  }

  lemma {:induction false} TransferRowsAt(ms: seq<Manifest>, known: KnownTable, paths: PathTable, e: Env)
    ensures |TransferRows(ms, known, paths, e)| == |ms|
    ensures forall i :: 0 <= i < |ms| ==> TransferRows(ms, known, paths, e)[i].knownId == KnownId(known, ms[i])
  {
    hide KnownId, PathId;
    if ms != [] {
      TransferRowsAt(ms[..|ms| - 1], known, paths, e);
    }
  }

  lemma {:induction false} Md4RowsAt(ms: seq<Manifest>, known: KnownTable)
    ensures |Md4Rows(ms, known)| == |ms|
    ensures forall i :: 0 <= i < |ms| ==> Md4Rows(ms, known)[i] == Family(KnownId(known, ms[i]), UnhexAll(ms[i].md4))
  {
    hide KnownId, UnhexAll;
    if ms != [] {
      Md4RowsAt(ms[..|ms| - 1], known);
    }
  }

  lemma {:induction false} AichRowsAt(ms: seq<Manifest>, known: KnownTable)
    ensures |AichRows(ms, known)| == |ms|
    ensures forall i :: 0 <= i < |ms| ==> AichRows(ms, known)[i] == Family(KnownId(known, ms[i]), UnhexAll(ms[i].aich))
  {
    hide KnownId, UnhexAll;
    if ms != [] {
      AichRowsAt(ms[..|ms| - 1], known);
    }
  }

  lemma {:induction false} RangeRowsAt(ms: seq<Manifest>, known: KnownTable, e: Env)
    ensures |RangeRows(ms, known, e)| == |ms|
    ensures forall i :: 0 <= i < |ms| ==>
              RangeRows(ms, known, e)[i] == Range(KnownId(known, ms[i]), 0, ms[i].size, e.now)
  {
    hide KnownId;
    if ms != [] {
      RangeRowsAt(ms[..|ms| - 1], known, e);
    }
  }

  lemma {:induction false} PieceRowsAt(ms: seq<Manifest>, known: KnownTable, transfers: TransferTable, e: Env)
    ensures |PieceRows(ms, known, transfers, false, e)| == |ms|
    ensures forall i :: 0 <= i < |ms| ==>
              PieceRows(ms, known, transfers, false, e)[i] == Family(TransferId(transfers, KnownId(known, ms[i])), [])
  {
    hide KnownId, TransferId;
    if ms != [] {
      PieceRowsAt(ms[..|ms| - 1], known, transfers, e);
    }
  }

  // ---------------------------------------------------------------- what a batch leaves stale, told of the inputs

  /** The last manifest of a file in a batch. */
  function LastOfFile(ms: seq<Manifest>, hash: Bytes): Option<Manifest> {
    if ms == [] then None
    else if HashOf(ms[|ms| - 1]) == hash then Some(ms[|ms| - 1])
    else LastOfFile(ms[..|ms| - 1], hash)
  }

  /** The last manifest of the file that `m` describes; `m` itself when it is of no file of the batch. */
  function Last(ms: seq<Manifest>, m: Manifest): Manifest {
    LastOfFile(ms, HashOf(m)).GetOr(m)
  }

  /** Rows of a table that was there before, under the id of a manifest's file if the file was known. */
  ghost predicate IsRecordedFor(db: Database, m: Manifest, id: nat) {
    HashOf(m) in db.known.rows && db.known.rows[HashOf(m)].id == id
  }

  /** No earlier MD4 list of a file, in the batch or in the table, is longer than its last one in the batch. */
  ghost predicate LastMd4IsLongest(db: Database, ms: seq<Manifest>) {
    forall m <- ms ::
      && |m.md4| <= |Last(ms, m).md4|
      && forall k: (nat, nat) :: k in db.md4 && IsRecordedFor(db, m, k.0) ==> k.1 < |Last(ms, m).md4|
  }

  ghost predicate LastAichIsLongest(db: Database, ms: seq<Manifest>) {
    forall m <- ms ::
      && |m.aich| <= |Last(ms, m).aich|
      && forall k: (nat, nat) :: k in db.aich && IsRecordedFor(db, m, k.0) ==> k.1 < |Last(ms, m).aich|
  }

  /** No transfer of a file of the batch has pieces. */
  ghost predicate NoPiecesRecorded(db: Database, ms: seq<Manifest>) {
    forall m <- ms :: NoPiecesFor(db, m)
  }

  ghost predicate NoPiecesFor(db: Database, m: Manifest) {
    forall f, k: (nat, nat) ::
      k in db.pieces && f in db.transfers.rows && db.transfers.rows[f].id == k.0 ==> !IsRecordedFor(db, m, f)
  }

  /** Every range of a file, in the batch or in the table, is the last one of the batch. */
  ghost predicate OneRangePerFile(db: Database, ms: seq<Manifest>, e: Env) {
    forall m <- ms :: OneRangeFor(db, ms, m, e)
  }

  ghost predicate OneRangeFor(db: Database, ms: seq<Manifest>, m: Manifest, e: Env) {
    && m.size == Last(ms, m).size
    && forall r <- db.ranges :: IsRecordedFor(db, m, r.parent) ==> r == Range(r.parent, 0, Last(ms, m).size, e.now)
  }

  /** No file of the batch comes twice or has a range. */
  ghost predicate OnlyNewRanges(db: Database, ms: seq<Manifest>) {
    && (forall i, j :: 0 <= i < j < |ms| ==> HashOf(ms[i]) != HashOf(ms[j]))
    && forall m <- ms, r <- db.ranges :: !IsRecordedFor(db, m, r.parent)
  }

  // ---------------------------------------------------------------- families

  lemma {:induction false} LongestAtMost<V>(families: seq<Family<V>>, parent: nat, n: nat)
    ensures LongestOf(families, parent) <= n <==> forall f <- families :: f.parent == parent ==> |f.values| <= n
  {
    if families != [] {
      LongestAtMost(families[..|families| - 1], parent, n);
      assert families == families[..|families| - 1] + [families[|families| - 1]];
    }
  }

  lemma {:induction false} LastIsMember<V>(families: seq<Family<V>>, parent: nat)
    ensures match LastOf(families, parent)
            case None => forall f <- families :: f.parent != parent
            case Some(values) => Family(parent, values) in families
  {
    if families != [] {
      LastIsMember(families[..|families| - 1], parent);
      assert families == families[..|families| - 1] + [families[|families| - 1]];
    }
  }

  /** The last list of a family reaches past the family itself and past the rows of its parent. */
  ghost predicate LastReaches<V>(t: Parts<V>, families: seq<Family<V>>, f: Family<V>) {
    && LastOf(families, f.parent).Some?
    && |f.values| <= |LastOf(families, f.parent).value|
    && forall k: (nat, nat) :: k in t && k.0 == f.parent ==> k.1 < |LastOf(families, f.parent).value|
  }

  /** What it takes for the last lists to overwrite everything, family by family. */
  lemma OverwritesIff<V>(t: Parts<V>, families: seq<Family<V>>)
    ensures LastOverwritesAll(t, families)
       <==> forall i :: 0 <= i < |families| ==> LastReaches(t, families, families[i])
  {
    if LastOverwritesAll(t, families) {
      forall f <- families
        ensures LastReaches(t, families, f)
      {
        LastIsMember(families, f.parent);
        var n := |LastOf(families, f.parent).value|;
        LongestAtMost(families, f.parent, n);
        var k := (f.parent, n);
        assert k.1 < LongestOf(families, k.0) ==> k.1 < n;
      }
    }
    if forall i :: 0 <= i < |families| ==> LastReaches(t, families, families[i]) {
      forall k: (nat, nat) | LastOf(families, k.0).Some? && (k in t || k.1 < LongestOf(families, k.0))
        ensures k.1 < |LastOf(families, k.0).value|
      {
        LastIsMember(families, k.0);
        var f :| f in families && f.parent == k.0;
        assert LastReaches(t, families, f);
        LongestAtMost(families, k.0, |LastOf(families, k.0).value|);
      }
    }
  }

  // ---------------------------------------------------------------- ids of a batch

  /** Files known before keep their ids, new files get ids not yet handed out, and different files different ids. */
  ghost predicate CleanIds(db: Database, ms: seq<Manifest>, known: KnownTable) {
    && (forall m <- ms, n <- ms :: KnownId(known, m) == KnownId(known, n) ==> HashOf(m) == HashOf(n))
    && (forall m <- ms :: if HashOf(m) in db.known.rows then KnownId(known, m) == db.known.rows[HashOf(m)].id
                          else db.known.next <= KnownId(known, m))
  }

  lemma BatchIdsAreClean(db: Database, ms: seq<Manifest>, e: Env)
    requires DistinctIds(db.known)
    ensures CleanIds(db, ms, SeedBatch(db, ms, e).known)
  {
    hide HashOf, PutKnowns, PutPaths, PutTransfers, PutSources, MergeAll, DropFailures;
    var known := SeedBatch(db, ms, e).known;
    PutKnownsIds(db.known, KnownRows(ms), e.now);
    KnownRowsAt(ms);
    forall m <- ms
      ensures HashOf(m) in known.rows
    {
      var i :| 0 <= i < |ms| && ms[i] == m;
      assert KnownRows(ms)[i].hash == HashOf(m);
    }
  }

  /** Under an id, rows were recorded before exactly when they were recorded for the file of that id. */
  lemma RecordedUnder(db: Database, ms: seq<Manifest>, known: KnownTable, m: Manifest, id: nat)
    requires CleanIds(db, ms, known) && m in ms && id < db.known.next
    ensures KnownId(known, m) == id <==> IsRecordedFor(db, m, id)
  {
    hide HashOf, KnownId;
  }

  lemma {:induction false} LastMd4Row(ms: seq<Manifest>, known: KnownTable, m: Manifest)
    requires forall n <- ms :: KnownId(known, n) == KnownId(known, m) ==> HashOf(n) == HashOf(m)
    ensures var last := LastOfFile(ms, HashOf(m));
            LastOf(Md4Rows(ms, known), KnownId(known, m))
            == if last.Some? then Some(UnhexAll(last.value.md4)) else None
  {
    hide HashOf, UnhexAll;
    if ms != [] {
      assert forall n <- ms[..|ms| - 1] :: n in ms;
      assert ms[|ms| - 1] in ms;
      LastMd4Row(ms[..|ms| - 1], known, m);
    }
  }

  lemma {:induction false} LastAichRow(ms: seq<Manifest>, known: KnownTable, m: Manifest)
    requires forall n <- ms :: KnownId(known, n) == KnownId(known, m) ==> HashOf(n) == HashOf(m)
    ensures var last := LastOfFile(ms, HashOf(m));
            LastOf(AichRows(ms, known), KnownId(known, m))
            == if last.Some? then Some(UnhexAll(last.value.aich)) else None
  {
    hide HashOf, UnhexAll;
    if ms != [] {
      assert forall n <- ms[..|ms| - 1] :: n in ms;
      assert ms[|ms| - 1] in ms;
      LastAichRow(ms[..|ms| - 1], known, m);
    }
  }

  lemma {:induction false} LastRangeRow(ms: seq<Manifest>, known: KnownTable, m: Manifest, e: Env)
    requires forall n <- ms :: KnownId(known, n) == KnownId(known, m) ==> HashOf(n) == HashOf(m)
    ensures var last := LastOfFile(ms, HashOf(m));
            LastRange(RangeRows(ms, known, e), KnownId(known, m))
            == if last.Some? then Some(Range(KnownId(known, m), 0, last.value.size, e.now)) else None
  {
    hide HashOf;
    if ms != [] {
      assert forall n <- ms[..|ms| - 1] :: n in ms;
      assert ms[|ms| - 1] in ms;
      LastRangeRow(ms[..|ms| - 1], known, m, e);
    }
  }

  lemma {:induction false} LastExists(ms: seq<Manifest>, m: Manifest)
    requires m in ms
    ensures LastOfFile(ms, HashOf(m)) == Some(Last(ms, m)) && Last(ms, m) in ms && HashOf(Last(ms, m)) == HashOf(m)
  {
    hide HashOf;
    var init, last := ms[..|ms| - 1], ms[|ms| - 1];
    assert ms == init + [last];
    if HashOf(last) != HashOf(m) {
      LastExists(init, m);
    }
  }

  // ---------------------------------------------------------------- the two writers, table by table

  lemma Md4OverwritesIff(db: Database, ms: seq<Manifest>, known: KnownTable)
    requires ValidIds(db) && CleanIds(db, ms, known)
    ensures LastOverwritesAll(db.md4, Md4Rows(ms, known)) <==> LastMd4IsLongest(db, ms)
  {
    hide HashOf, UnhexAll, KnownId, LastOf, Last, Md4Rows, LastOverwritesAll, IsRecordedFor;
    var families := Md4Rows(ms, known);
    OverwritesIff(db.md4, families);
    Md4RowsAt(ms, known);
    forall i | 0 <= i < |ms|
      ensures families[i] in families && ms[i] in ms
      ensures LastReaches(db.md4, families, families[i]) <==>
              && |ms[i].md4| <= |Last(ms, ms[i]).md4|
              && forall k: (nat, nat) :: k in db.md4 && IsRecordedFor(db, ms[i], k.0) ==> k.1 < |Last(ms, ms[i]).md4|
    {
      LastMd4Row(ms, known, ms[i]);
      LastExists(ms, ms[i]);
      forall k: (nat, nat) | k in db.md4
        ensures KnownId(known, ms[i]) == k.0 <==> IsRecordedFor(db, ms[i], k.0)
      {
        RecordedUnder(db, ms, known, ms[i], k.0);
      }
    }
  }

  lemma AichOverwritesIff(db: Database, ms: seq<Manifest>, known: KnownTable)
    requires ValidIds(db) && CleanIds(db, ms, known)
    ensures LastOverwritesAll(db.aich, AichRows(ms, known)) <==> LastAichIsLongest(db, ms)
  {
    hide HashOf, UnhexAll, KnownId, LastOf, Last, AichRows, LastOverwritesAll, IsRecordedFor;
    var families := AichRows(ms, known);
    OverwritesIff(db.aich, families);
    AichRowsAt(ms, known);
    forall i | 0 <= i < |ms|
      ensures families[i] in families && ms[i] in ms
      ensures LastReaches(db.aich, families, families[i]) <==>
              && |ms[i].aich| <= |Last(ms, ms[i]).aich|
              && forall k: (nat, nat) :: k in db.aich && IsRecordedFor(db, ms[i], k.0) ==> k.1 < |Last(ms, ms[i]).aich|
    {
      LastAichRow(ms, known, ms[i]);
      LastExists(ms, ms[i]);
      forall k: (nat, nat) | k in db.aich
        ensures KnownId(known, ms[i]) == k.0 <==> IsRecordedFor(db, ms[i], k.0)
      {
        RecordedUnder(db, ms, known, ms[i], k.0);
      }
    }
  }

  /** With no row to write, only parents without rows are left alike. */
  lemma EmptyReaches<V>(t: Parts<V>, families: seq<Family<V>>, f: Family<V>)
    requires f in families && forall g <- families :: g.values == []
    ensures LastReaches(t, families, f) <==> forall k: (nat, nat) :: k in t ==> k.0 != f.parent
  {
    LastIsMember(families, f.parent);
  }

  /** A transfer of the batch has the id it had before, or one under which there is no piece. */
  lemma PiecesUnder(db: Database, ms: seq<Manifest>, known: KnownTable, transfers: TransferTable, m: Manifest,
                    k: (nat, nat))
    requires ValidIds(db) && CleanIds(db, ms, known) && m in ms && k in db.pieces
    requires TransfersGrew(db.transfers, transfers) && KnownId(known, m) in transfers.rows
    ensures TransferId(transfers, KnownId(known, m)) == k.0 <==>
            exists f :: f in db.transfers.rows && db.transfers.rows[f].id == k.0 && IsRecordedFor(db, m, f)
  {
    hide HashOf, KnownId, IsRecordedFor, DistinctIds;
    var id := KnownId(known, m);
    forall f | f in db.transfers.rows
      ensures id == f <==> IsRecordedFor(db, m, f)
    {
      RecordedUnder(db, ms, known, m, f);
    }
    hide CleanIds;
    if TransferId(transfers, id) == k.0 {
      assert id in db.transfers.rows && db.transfers.rows[id].id == k.0;
    }
  }

  lemma PiecesStaleIff(db: Database, ms: seq<Manifest>, e: Env)
    requires ValidIds(db)
    ensures NoStalePieces(db, ms, e) <==> NoPiecesRecorded(db, ms)
  {
    hide HashOf, KnownId, PutKnowns, PutPaths, PutTransfers, PutSources, MergeAll, DropFailures, PieceRows;
    hide TransferRows;
    hide LastOverwritesAll, LastReaches, IsRecordedFor, ValidIds;
    var batch := SeedBatch(db, ms, e);
    var known, transfers := batch.known, batch.transfers;
    var families := PieceRows(ms, known, transfers, false, e);
    BatchIdsAreClean(db, ms, e) by {
      ValidIdsDistinct(db);
    }
    PutTransfersIds(db.transfers, TransferRows(ms, known, batch.paths, e), e.now);
    TransferRowsAt(ms, known, batch.paths, e);
    PieceRowsAt(ms, known, transfers, e);
    OverwritesIff(db.pieces, families);
    forall i | 0 <= i < |ms|
      ensures LastReaches(db.pieces, families, families[i]) <==> NoPiecesFor(db, ms[i])
    {
      EmptyReaches(db.pieces, families, families[i]);
      assert TransferRows(ms, known, batch.paths, e)[i].knownId in transfers.rows;
      forall k | k in db.pieces
        ensures k.0 == families[i].parent <==>
                exists f :: f in db.transfers.rows && db.transfers.rows[f].id == k.0 && IsRecordedFor(db, ms[i], f)
      {
        PiecesUnder(db, ms, known, transfers, ms[i], k);
      }
    }
    hide NoPiecesFor, CleanIds, TransfersGrew;
    assert NoPiecesRecorded(db, ms) <==> forall i :: 0 <= i < |ms| ==> NoPiecesFor(db, ms[i]);
  }

  lemma ValidIdsDistinct(db: Database)
    requires ValidIds(db)
    ensures DistinctIds(db.known)
  {
  }

  lemma RangesAgreeIff(db: Database, ms: seq<Manifest>, known: KnownTable, e: Env)
    requires ValidIds(db) && CleanIds(db, ms, known)
    ensures RangesAgree(db.ranges, RangeRows(ms, known, e)) <==> OneRangePerFile(db, ms, e)
  {
    hide HashOf, KnownId, LastRange, Last, RangeRows, IsRecordedFor;
    var added := RangeRows(ms, known, e);
    RangeRowsAt(ms, known, e);
    forall i | 0 <= i < |ms|
      ensures added[i] == Range(KnownId(known, ms[i]), 0, ms[i].size, e.now)
      ensures LastRange(added, added[i].parent) == Some(Range(added[i].parent, 0, Last(ms, ms[i]).size, e.now))
      ensures forall r <- db.ranges :: r.parent == added[i].parent <==> IsRecordedFor(db, ms[i], r.parent)
    {
      LastRangeRow(ms, known, ms[i], e);
      LastExists(ms, ms[i]);
      forall r <- db.ranges
        ensures KnownId(known, ms[i]) == r.parent <==> IsRecordedFor(db, ms[i], r.parent)
      {
        RecordedUnder(db, ms, known, ms[i], r.parent);
      }
    }
    hide CleanIds, ValidIds;
    if RangesAgree(db.ranges, added) {
      forall i | 0 <= i < |ms|
        ensures OneRangeFor(db, ms, ms[i], e)
      {
        assert added[i] in db.ranges + added;
        assert forall r <- db.ranges :: r in db.ranges + added;
      }
    }
    if OneRangePerFile(db, ms, e) {
      forall r | r in db.ranges + added && LastRange(added, r.parent).Some?
        ensures LastRange(added, r.parent).value == r
      {
        LastRangeIsAdded(added, r.parent);
        var i :| 0 <= i < |added| && added[i] == LastRange(added, r.parent).value;
        assert OneRangeFor(db, ms, ms[i], e);
        if r in added {
          var j :| 0 <= j < |added| && added[j] == r;
          assert OneRangeFor(db, ms, ms[j], e);
        }
      }
    }
  }

  lemma NewRangesIff(db: Database, ms: seq<Manifest>, known: KnownTable, e: Env)
    requires ValidIds(db) && CleanIds(db, ms, known)
    ensures ParentsAreNew(db.ranges, RangeRows(ms, known, e)) <==> OnlyNewRanges(db, ms)
  {
    hide HashOf, RangeRows, IsRecordedFor;
    var added := RangeRows(ms, known, e);
    RangeRowsAt(ms, known, e);
    forall i | 0 <= i < |ms|
      ensures added[i].parent == KnownId(known, ms[i])
      ensures HasParent(db.ranges, added[i].parent) <==> exists r <- db.ranges :: IsRecordedFor(db, ms[i], r.parent)
      ensures HasParent(added[..i], added[i].parent) <==> exists j :: 0 <= j < i && HashOf(ms[j]) == HashOf(ms[i])
    {
      hide KnownId;
      forall r <- db.ranges
        ensures KnownId(known, ms[i]) == r.parent <==> IsRecordedFor(db, ms[i], r.parent)
      {
        RecordedUnder(db, ms, known, ms[i], r.parent);
      }
      assert HasParent(db.ranges, added[i].parent) <==> exists r <- db.ranges :: r.parent == added[i].parent;
      SameFileSameId(ms, known, i);
      assert forall j :: 0 <= j < i ==> added[..i][j] == added[j];
    }
    hide KnownId, HasParent, CleanIds, ValidIds;
    if ParentsAreNew(db.ranges, added) {
      forall i, j | 0 <= i < j < |ms|
        ensures HashOf(ms[i]) != HashOf(ms[j])
      {
        assert !HasParent(added[..j], added[j].parent);
      }
      forall m <- ms
        ensures forall r <- db.ranges :: !IsRecordedFor(db, m, r.parent)
      {
        var i :| 0 <= i < |ms| && ms[i] == m;
        assert !HasParent(db.ranges, added[i].parent);
      }
    }
    if OnlyNewRanges(db, ms) {
      forall i | 0 <= i < |added|
        ensures !HasParent(db.ranges, added[i].parent) && !HasParent(added[..i], added[i].parent)
      {
        assert ms[i] in ms;
      }
    }
  }

  lemma SameFileSameId(ms: seq<Manifest>, known: KnownTable, i: nat)
    requires i < |ms| && forall m <- ms, n <- ms :: KnownId(known, m) == KnownId(known, n) ==> HashOf(m) == HashOf(n)
    ensures forall j :: 0 <= j < i ==>
              (KnownId(known, ms[j]) == KnownId(known, ms[i]) <==> HashOf(ms[j]) == HashOf(ms[i]))
  {
    hide HashOf;
  }

  /**
   For any batch and any database whose ids are in order, each table of many rows per file ends up the same in both
   writers exactly under a condition on what was in it and on the batch.
   */
  lemma WritersAgreeIff(db: Database, ms: seq<Manifest>, e: Env)
    requires ValidIds(db)
    ensures var rows, batch := SeedRows(db, ms, false, e), SeedBatch(db, ms, e);
            && (rows.md4 == batch.md4 <==> LastMd4IsLongest(db, ms))
            && (rows.aich == batch.aich <==> LastAichIsLongest(db, ms))
            && (rows.pieces == batch.pieces <==> NoPiecesRecorded(db, ms))
            && (RowSet(rows.ranges) == RowSet(batch.ranges) <==> OneRangePerFile(db, ms, e))
            && (rows.ranges == batch.ranges <==> OnlyNewRanges(db, ms))
  {
    hide *;
    ValidIdsDistinct(db);
    ChildTablesAgreeIff(db, ms, e);
    BatchIdsAreClean(db, ms, e);
    var known := SeedBatch(db, ms, e).known;
    Md4OverwritesIff(db, ms, known);
    AichOverwritesIff(db, ms, known);
    PiecesStaleIff(db, ms, e);
    RangesAgreeIff(db, ms, known, e);
    NewRangesIff(db, ms, known, e);
  }

  /** A batch of consistent manifests of files without rows meets the conditions. */
  lemma ConsistentMeetsConditions(db: Database, ms: seq<Manifest>, e: Env)
    requires ValidIds(db) && Consistent(ms) && NothingRecorded(db, ms)
    ensures LastMd4IsLongest(db, ms) && LastAichIsLongest(db, ms) && NoPiecesRecorded(db, ms)
    ensures OneRangePerFile(db, ms, e)
  {
    hide HashOf, Last, KnownId, IsRecordedFor, IsBatchFile, ValidIds, Consistent;
    forall m <- ms
      ensures m.size == Last(ms, m).size && |m.md4| == |Last(ms, m).md4| && |m.aich| == |Last(ms, m).aich|
      ensures forall id :: IsRecordedFor(db, m, id) ==> IsBatchFile(db, ms, id)
    {
      LastAgrees(ms, m);
      RecordedIsBatchFile(db, ms, m);
    }
  }

  lemma LastAgrees(ms: seq<Manifest>, m: Manifest)
    requires Consistent(ms) && m in ms
    ensures m.size == Last(ms, m).size && |m.md4| == |Last(ms, m).md4| && |m.aich| == |Last(ms, m).aich|
  {
    hide HashOf, Last, UnhexAll;
    LastExists(ms, m);
    var i :| 0 <= i < |ms| && ms[i] == m;
    var j :| 0 <= j < |ms| && ms[j] == Last(ms, m);
    assert |UnhexAll(ms[i].md4)| == |UnhexAll(ms[j].md4)| && |UnhexAll(ms[i].aich)| == |UnhexAll(ms[j].aich)|;
  }

  lemma RecordedIsBatchFile(db: Database, ms: seq<Manifest>, m: Manifest)
    requires m in ms
    ensures forall id :: IsRecordedFor(db, m, id) ==> IsBatchFile(db, ms, id)
  {
    hide HashOf;
    var i :| 0 <= i < |ms| && ms[i] == m;
  }

  /**
   Bulk seeding refines row-by-row seeding: when manifests of one file agree and nothing is recorded yet for
   the files of the batch, every table ends up the same, the verified ranges as a set.
   */
  lemma BatchRefinesRows(db: Database, ms: seq<Manifest>, e: Env)
    requires ValidIds(db) && Consistent(ms) && NothingRecorded(db, ms)
    ensures var rows, batch := SeedRows(db, ms, false, e), SeedBatch(db, ms, e);
            && rows.paths == batch.paths && rows.known == batch.known && rows.transfers == batch.transfers
            && rows.sources == batch.sources && rows.scanFailures == batch.scanFailures
            && rows.md4 == batch.md4 && rows.aich == batch.aich && rows.pieces == batch.pieces
            && RowSet(rows.ranges) == RowSet(batch.ranges)
  {
    hide *;
    KeyedTablesAgree(db, ms, e);
    WritersAgreeIff(db, ms, e);
    ConsistentMeetsConditions(db, ms, e);
  }

  // ---------------------------------------------------------------- a batch on which the writers differ

  const noStats := Stats("normal", false, 0, 0, 0, 0)

  const emptyDatabase := Database(PathTable(map[], 1), KnownTable(map[], 1), TransferTable(map[], 1), map[], {},
                                  map[], map[], map[], [])

  /** Two manifests of one file, the first with two part hashes and the second with one. */
  const shrinkingBatch: seq<Manifest> := [
    Manifest("00", "a", 9_728_000, "C:\\a", 1, ["01", "02"], None, [], noStats),
    Manifest("00", "a", 9_728_000, "C:\\a", 1, ["03"], None, [], noStats)]

  /** Both writers take the batch, and the bulk writer keeps a part hash that the other removes. */
  lemma ShrinkingBatchDiffers(e: Env)
    ensures forall m <- shrinkingBatch :: Decodes(m) && IsCanonical(m.ed2kHash)
    ensures SeedRows(emptyDatabase, shrinkingBatch, false, e).md4 != SeedBatch(emptyDatabase, shrinkingBatch, e).md4
  {
    hide *;
    ShrinkingBatchDecodes();
    EmptyDatabaseIsValid();
    WritersAgreeIff(emptyDatabase, shrinkingBatch, e);
    ShrinkingBatchShrinks(emptyDatabase);
  }

  lemma ShrinkingBatchShrinks(db: Database)
    ensures !LastMd4IsLongest(db, shrinkingBatch)
  {
    hide Unhex;
    var first := shrinkingBatch[0];
    assert first in shrinkingBatch;
    assert Last(shrinkingBatch, first) == shrinkingBatch[1];
  }

  lemma EmptyDatabaseIsValid()
    ensures ValidIds(emptyDatabase)
  {
  }

  lemma ShrinkingBatchDecodes()
    ensures forall m <- shrinkingBatch :: Decodes(m) && IsCanonical(m.ed2kHash)
  {
    hide FromHex, ToHex, Digit, IsAsciiSpace;
    PairReads('0', '0', 0);
    PairReads('0', '1', 1);
    PairReads('0', '2', 2);
    PairReads('0', '3', 3);
    assert ['0', '0'] == "00" && ['0', '1'] == "01" && ['0', '2'] == "02" && ['0', '3'] == "03";
  }

  /** Two digits are the spelling of one byte. */
  lemma PairReads(a: char, b: char, n: byte)
    requires n < 10 && a == '0' && b == '0' + n as char
    ensures FromHex([a, b]) == Some([n]) && ToHex([n]) == [a, b]
  {
    assert [a, b][2..] == "" && FromHex("") == Some([]);
    assert Digit(a) == Some(0) && Digit(b) == Some(n as int);
    assert [n][1..] == [] && ToHex([]) == "";
    assert n / 16 == 0 && n % 16 == n;
    var s := [a, b];
    assert !IsAsciiSpace(s[0]);
    var bytes: Bytes := [16 * 0 + n] + [];
    assert FromHex(s) == Some(bytes) && bytes == [n];
    assert ToHex([n]) == [LowerDigit(0), LowerDigit(n)] + "";
    assert LowerDigit(0) == a && LowerDigit(n) == b;
  }
}
