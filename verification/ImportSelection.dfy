/** Choosing which known.met entries to import, with AICH hashes looked up in a filtered known2 map. */
module ImportSelection {
  import opened Outcomes
  import opened Hex
  import opened PieceArithmetic
  import opened KnownMetImport
  import opened Known2

  /** The AICH part hashes to use for an entry: its own, or those of its root when their number fits. */
  function EffectiveAich(e: Entry, known2: HashMap, size: nat): seq<Bytes> {
    if e.aich != [] then e.aich
    else if e.aichRoot.None? then []
    else if e.aichRoot.value !in known2 then []
    else if |known2[e.aichRoot.value]| != ExpectedAichHashCount(size) then []
    else known2[e.aichRoot.value]
  }

  predicate HasStats(e: Entry) {
    e.uploadedBytes > 0 || e.uploadRequests > 0 || e.uploadAccepts > 0 || e.lastUploadRequestMs > 0
  }

  /** The entry takes its AICH hashes from the known2 map. */
  predicate UsesKnown2(e: Entry, aich: seq<Bytes>) {
    e.aichRoot.Some? && e.aich == [] && aich != []
  }

  predicate Md4Fits(e: Entry) {
    e.size.Some? && |e.md4| == ExpectedMd4HashCount(e.size.value)
  }

  /** The entry needs its root's hashes and nothing else about it stands in the way. */
  predicate NeedsRoot(e: Entry) {
    && e.aichRoot.Some? && e.aich == [] && e.name.Some? && e.size.Some?
    && ExpectedAichHashCount(e.size.value) > 0 && Md4Fits(e)
  }

  // ---------------------------------------------------------------- pathless import

  datatype Verdict = Accepted(aich: seq<Bytes>) | MissingIdentity | Md4CountMismatch | NoPathMatch | AichCountMismatch

  function CacheVerdict(e: Entry, known2: HashMap): Verdict {
    if e.name.None? || e.size.None? then MissingIdentity
    else if e.size.value <= 0 || e.modifiedS <= 0 then MissingIdentity
    else if !Md4Fits(e) then Md4CountMismatch
    else
      var aich := EffectiveAich(e, known2, e.size.value);
      if e.aichRoot.Some? && |aich| != ExpectedAichHashCount(e.size.value) then AichCountMismatch
      else Accepted(aich)
  }

  /** The known2 map is asked about an entry, and has something for it. */
  predicate CacheUses(e: Entry, known2: HashMap) {
    && e.name.Some? && e.size.Some? && e.size.value > 0 && e.modifiedS > 0 && Md4Fits(e)
    && UsesKnown2(e, EffectiveAich(e, known2, e.size.value))
  }

  datatype CacheRow = CacheRow(entry: Entry, aich: seq<Bytes>)

  datatype CacheSummary = CacheSummary(
    rows: seq<CacheRow>, missingIdentity: nat, md4Mismatch: nat, aichMismatch: nat, known2Used: nat, statsRecords: nat)

  /** The number of entries with a property. */
  function Count(entries: seq<Entry>, holds: Entry -> bool): nat {
    if entries == [] then 0
    else Count(entries[..|entries| - 1], holds) + if holds(entries[|entries| - 1]) then 1 else 0
  }

  function CacheRows(entries: seq<Entry>, known2: HashMap): seq<CacheRow> {
    if entries == [] then []
    else
      var init, e := CacheRows(entries[..|entries| - 1], known2), entries[|entries| - 1];
      match CacheVerdict(e, known2)
      case Accepted(aich) => init + [CacheRow(e, aich)]
      case _ => init
  }

  /** What the import amounts to: the accepted rows in order, and each count as a number of entries. */
  function CacheOutcome(entries: seq<Entry>, known2: HashMap): CacheSummary {
    CacheSummary(
      CacheRows(entries, known2),
      Count(entries, (e: Entry) => CacheVerdict(e, known2) == MissingIdentity),
      Count(entries, (e: Entry) => CacheVerdict(e, known2) == Md4CountMismatch),
      Count(entries, (e: Entry) => CacheVerdict(e, known2) == AichCountMismatch),
      Count(entries, (e: Entry) => CacheUses(e, known2)),
      Count(entries, (e: Entry) => CacheVerdict(e, known2).Accepted? && HasStats(e)))
  }

  /** The roots that a restricted parse of the known2 file has to keep. */
  function WantedRoots(entries: seq<Entry>): set<Bytes> {
    set i | 0 <= i < |entries| && NeedsRoot(entries[i]) :: entries[i].aichRoot.value
  }

  method GatherWanted(entries: seq<Entry>) returns (wanted: set<Bytes>)
    ensures wanted == WantedRoots(entries)
  {
    wanted := {};
    for i := 0 to |entries|
      invariant wanted == WantedRoots(entries[..i])
    {
      var e := entries[i];
      assert forall j :: 0 <= j < i ==> entries[..i + 1][j] == entries[..i][j];
      if NeedsRoot(e) {
        wanted := wanted + {e.aichRoot.value};
      }
    }
    assert entries[..|entries|] == entries;
  }

  /** The known2 map of an import: read only when some root is wanted and there is a file. */
  function Known2Of(wanted: set<Bytes>, known2File: Option<Bytes>): Result<HashMap> {
    if wanted != {} && known2File.Some? then
      ImportFile(known2File.value, Some(wanted))
    else Ok(map[])
  }

  method ReadKnown2(wanted: set<Bytes>, known2File: Option<Bytes>) returns (r: Result<HashMap>)
    ensures r.Ok? <==> Known2Of(wanted, known2File).Ok?
    ensures r.Ok? ==> r == Known2Of(wanted, known2File)
  {
    if wanted != {} && known2File.Some? {
      r := ParseKnown264(known2File.value, Some(wanted));
    } else {
      r := Ok(map[]);
    }
  }

  /** Imports the entries of a known.met file as pathless cache rows. */
  method ImportCache(entries: seq<Entry>, known2File: Option<Bytes>) returns (r: Result<CacheSummary>)
    ensures match Known2Of(WantedRoots(entries), known2File)
            case Err(_) => r.Err?
            case Ok(known2) => r == Ok(CacheOutcome(entries, known2))
  {
    var wanted := GatherWanted(entries);
    var known2 :- ReadKnown2(wanted, known2File);
    var summary := SelectCacheRows(entries, known2);
    return Ok(summary);
  }

  method SelectCacheRows(entries: seq<Entry>, known2: HashMap) returns (s: CacheSummary)
    ensures s == CacheOutcome(entries, known2)
  {
    hide EffectiveAich, Md4Fits, HasStats, ExpectedAichHashCount;
    var missingIdentity, md4Mismatch, aichMismatch, known2Used, statsRecords := 0, 0, 0, 0, 0;
    var rows: seq<CacheRow> := [];
    for i := 0 to |entries|
      invariant CacheSummary(rows, missingIdentity, md4Mismatch, aichMismatch, known2Used, statsRecords)
             == CacheOutcome(entries[..i], known2)
    {
      var e := entries[i];
      assert entries[..i + 1][..i] == entries[..i];
      if e.name.None? || e.size.None? {
        missingIdentity := missingIdentity + 1;
        continue;
      }
      if e.size.value <= 0 || e.modifiedS <= 0 {
        missingIdentity := missingIdentity + 1;
        continue;
      }
      if !Md4Fits(e) {
        md4Mismatch := md4Mismatch + 1;
        continue;
      }
      var aich := EffectiveAich(e, known2, e.size.value);
      if UsesKnown2(e, aich) {
        known2Used := known2Used + 1;
      }
      if e.aichRoot.Some? && |aich| != ExpectedAichHashCount(e.size.value) {
        aichMismatch := aichMismatch + 1;
        continue;
      }
      if HasStats(e) {
        statsRecords := statsRecords + 1;
      }
      rows := rows + [CacheRow(e, aich)];
    }
    assert entries[..|entries|] == entries;
    return CacheSummary(rows, missingIdentity, md4Mismatch, aichMismatch, known2Used, statsRecords);
  }

  // ---------------------------------------------------------------- every entry is counted once

  lemma {:induction false} CacheCountsOnce(entries: seq<Entry>, known2: HashMap)
    ensures var s := CacheOutcome(entries, known2);
            |s.rows| + s.missingIdentity + s.md4Mismatch + s.aichMismatch == |entries|
  {
    if entries != [] {
      hide CacheVerdict, CacheUses;
      CacheCountsOnce(entries[..|entries| - 1], known2);
      CacheVerdictKinds(entries[|entries| - 1], known2);
    }
  }

  lemma CacheVerdictKinds(e: Entry, known2: HashMap)
    ensures CacheVerdict(e, known2) != NoPathMatch
  {
  }

  // ---------------------------------------------------------------- a filtered map loses nothing

  /** The map answers as the full one does for an entry whose root, if it needs it, is kept. */
  lemma FilterKeepsAich(e: Entry, full: HashMap, wanted: set<Bytes>)
    requires e.size.Some? && e.name.Some? && Md4Fits(e)
    requires NeedsRoot(e) ==> e.aichRoot.value in wanted
    ensures EffectiveAich(e, Restrict(full, Some(wanted)), e.size.value) == EffectiveAich(e, full, e.size.value)
  {
  }

  lemma {:induction false} CountSame(entries: seq<Entry>, a: Entry -> bool, b: Entry -> bool)
    requires forall i :: 0 <= i < |entries| ==> a(entries[i]) == b(entries[i])
    ensures Count(entries, a) == Count(entries, b)
  {
    if entries != [] {
      CountSame(entries[..|entries| - 1], a, b);
    }
  }

  lemma {:induction false} CacheRowsSame(entries: seq<Entry>, a: HashMap, b: HashMap)
    requires forall i :: 0 <= i < |entries| ==> CacheVerdict(entries[i], a) == CacheVerdict(entries[i], b)
    ensures CacheRows(entries, a) == CacheRows(entries, b)
  {
    if entries != [] {
      CacheRowsSame(entries[..|entries| - 1], a, b);
    }
  }

  lemma FilterKeepsVerdict(e: Entry, full: HashMap, wanted: set<Bytes>)
    requires NeedsRoot(e) ==> e.aichRoot.value in wanted
    ensures CacheVerdict(e, Restrict(full, Some(wanted))) == CacheVerdict(e, full)
    ensures CacheUses(e, Restrict(full, Some(wanted))) == CacheUses(e, full)
  {
    if e.size.Some? && e.name.Some? && Md4Fits(e) {
      FilterKeepsAich(e, full, wanted);
    }
  }

  lemma FilterKeepsCacheOutcome(entries: seq<Entry>, full: HashMap)
    ensures CacheOutcome(entries, Restrict(full, Some(WantedRoots(entries)))) == CacheOutcome(entries, full)
  {
    hide CacheVerdict, CacheUses, Restrict, HasStats;
    var part := Restrict(full, Some(WantedRoots(entries)));
    forall i | 0 <= i < |entries|
      ensures CacheVerdict(entries[i], part) == CacheVerdict(entries[i], full)
      ensures CacheUses(entries[i], part) == CacheUses(entries[i], full)
    {
      FilterKeepsVerdict(entries[i], full, WantedRoots(entries));
    }
    CacheRowsSame(entries, part, full);
    CountSame(entries, (e: Entry) => CacheVerdict(e, part) == MissingIdentity,
              (e: Entry) => CacheVerdict(e, full) == MissingIdentity);
    CountSame(entries, (e: Entry) => CacheVerdict(e, part) == Md4CountMismatch,
              (e: Entry) => CacheVerdict(e, full) == Md4CountMismatch);
    CountSame(entries, (e: Entry) => CacheVerdict(e, part) == AichCountMismatch,
              (e: Entry) => CacheVerdict(e, full) == AichCountMismatch);
    CountSame(entries, (e: Entry) => CacheUses(e, part), (e: Entry) => CacheUses(e, full));
    CountSame(entries, (e: Entry) => CacheVerdict(e, part).Accepted? && HasStats(e),
              (e: Entry) => CacheVerdict(e, full).Accepted? && HasStats(e));
  }

  lemma Known2OfIsRestriction(wanted: set<Bytes>, d: Bytes)
    requires Layout(d).Ok?
    ensures ImportFile(d, None).Ok?
    ensures Known2Of(wanted, Some(d)) == Ok(Restrict(ImportFile(d, None).value, Some(wanted)))
  {
    FilteredImportIsRestriction(d, wanted);
    if wanted == {} {
      assert Restrict(ImportFile(d, None).value, Some(wanted)) == map[];
    }
  }

  /** With a well-formed known2 file, reading only the wanted roots imports what the whole map would. */
  lemma CacheImportLosesNothing(entries: seq<Entry>, d: Bytes)
    requires Layout(d).Ok?
    ensures var known2 := Known2Of(WantedRoots(entries), Some(d));
            && known2.Ok? && ImportFile(d, None).Ok?
            && CacheOutcome(entries, known2.value) == CacheOutcome(entries, ImportFile(d, None).value)
  {
    Known2OfIsRestriction(WantedRoots(entries), d);
    FilterKeepsCacheOutcome(entries, ImportFile(d, None).value);
  }

  // ---------------------------------------------------------------- import by path

  datatype Candidate = Candidate(path: string, name: string, size: nat, mtimeS: nat, mtimeMs: nat)

  /** What a record and a file on disk are matched by; the name is case-folded. */
  datatype FileKey = FileKey(name: string, size: nat, mtimeS: nat)

  function CandidateKey(c: Candidate, fold: string -> string): FileKey {
    FileKey(fold(c.name), c.size, c.mtimeS)
  }

  /** The candidates with a key, in order. */
  function MatchesFor(candidates: seq<Candidate>, key: FileKey, fold: string -> string): seq<Candidate> {
    if candidates == [] then []
    else
      var init, c := MatchesFor(candidates[..|candidates| - 1], key, fold), candidates[|candidates| - 1];
      if CandidateKey(c, fold) == key then init + [c] else init
  }

  function EntryMatches(e: Entry, candidates: seq<Candidate>, fold: string -> string): seq<Candidate> {
    if e.name.None? || e.size.None? then []
    else MatchesFor(candidates, FileKey(fold(e.name.value), e.size.value, e.modifiedS), fold)
  }

  function PathVerdict(e: Entry, candidates: seq<Candidate>, fold: string -> string, known2: HashMap): Verdict {
    if e.name.None? || e.size.None? then MissingIdentity
    else if !Md4Fits(e) then Md4CountMismatch
    else if EntryMatches(e, candidates, fold) == [] then NoPathMatch
    else
      var aich := EffectiveAich(e, known2, e.size.value);
      if e.aichRoot.Some? && |aich| != ExpectedAichHashCount(e.size.value) then AichCountMismatch
      else Accepted(aich)
  }

  predicate PathUses(e: Entry, candidates: seq<Candidate>, fold: string -> string, known2: HashMap) {
    && e.name.Some? && e.size.Some? && Md4Fits(e) && EntryMatches(e, candidates, fold) != []
    && UsesKnown2(e, EffectiveAich(e, known2, e.size.value))
  }

  /** One manifest: an entry under the path of one of its matches. */
  datatype PathRow = PathRow(entry: Entry, candidate: Candidate, aich: seq<Bytes>)

  function RowsFor(e: Entry, matches: seq<Candidate>, aich: seq<Bytes>): (rows: seq<PathRow>)
    ensures |rows| == |matches|
  {
    seq(|matches|, i requires 0 <= i < |matches| => PathRow(e, matches[i], aich))
  }

  function PathRows(entries: seq<Entry>, candidates: seq<Candidate>, fold: string -> string, known2: HashMap)
    : seq<PathRow>
  {
    if entries == [] then []
    else
      var init, e := PathRows(entries[..|entries| - 1], candidates, fold, known2), entries[|entries| - 1];
      match PathVerdict(e, candidates, fold, known2)
      case Accepted(aich) => init + RowsFor(e, EntryMatches(e, candidates, fold), aich)
      case _ => init
  }

  /** The source paths that accepted entries with upload statistics stand for. */
  function StatsPaths(entries: seq<Entry>, candidates: seq<Candidate>, fold: string -> string, known2: HashMap): nat {
    if entries == [] then 0
    else
      var e := entries[|entries| - 1];
      StatsPaths(entries[..|entries| - 1], candidates, fold, known2)
      + if PathVerdict(e, candidates, fold, known2).Accepted? && HasStats(e) then |EntryMatches(e, candidates, fold)|
        else 0
  }

  datatype PathCounts = PathCounts(
    matched: nat, duplicates: nat, missingIdentity: nat, md4Mismatch: nat, noPathMatch: nat, aichMismatch: nat,
    known2Used: nat, statsRecords: nat, statsPaths: nat)

  function PathOutcome(entries: seq<Entry>, candidates: seq<Candidate>, fold: string -> string, known2: HashMap)
    : PathCounts
  {
    PathCounts(
      Count(entries, (e: Entry) => PathVerdict(e, candidates, fold, known2).Accepted?),
      Count(entries, (e: Entry) => PathVerdict(e, candidates, fold, known2).Accepted?
                                   && |EntryMatches(e, candidates, fold)| > 1),
      Count(entries, (e: Entry) => PathVerdict(e, candidates, fold, known2) == MissingIdentity),
      Count(entries, (e: Entry) => PathVerdict(e, candidates, fold, known2) == Md4CountMismatch),
      Count(entries, (e: Entry) => PathVerdict(e, candidates, fold, known2) == NoPathMatch),
      Count(entries, (e: Entry) => PathVerdict(e, candidates, fold, known2) == AichCountMismatch),
      Count(entries, (e: Entry) => PathUses(e, candidates, fold, known2)),
      Count(entries, (e: Entry) => PathVerdict(e, candidates, fold, known2).Accepted? && HasStats(e)),
      StatsPaths(entries, candidates, fold, known2))
  }

  type KeyIndex = map<FileKey, seq<Candidate>>

  function LookUp(byKey: KeyIndex, key: FileKey): seq<Candidate> {
    if key in byKey then byKey[key] else []
  }

  /** Groups the candidates by their key. */
  method IndexCandidates(candidates: seq<Candidate>, fold: string -> string) returns (byKey: KeyIndex)
    ensures forall key :: LookUp(byKey, key) == MatchesFor(candidates, key, fold)
  {
    byKey := map[];
    for i := 0 to |candidates|
      invariant forall key :: LookUp(byKey, key) == MatchesFor(candidates[..i], key, fold)
    {
      var key := CandidateKey(candidates[i], fold);
      assert candidates[..i + 1][..i] == candidates[..i];
      byKey := byKey[key := LookUp(byKey, key) + [candidates[i]]];
    }
    assert candidates[..|candidates|] == candidates;
  }

  /** The roots wanted when only entries with a file on disk count. */
  function WantedRootsOnDisk(entries: seq<Entry>, candidates: seq<Candidate>, fold: string -> string): set<Bytes> {
    set i | 0 <= i < |entries| && NeedsRoot(entries[i]) && EntryMatches(entries[i], candidates, fold) != []
      :: entries[i].aichRoot.value
  }

  method GatherWantedOnDisk(entries: seq<Entry>, candidates: seq<Candidate>, fold: string -> string, byKey: KeyIndex)
    returns (wanted: set<Bytes>)
    requires forall key :: LookUp(byKey, key) == MatchesFor(candidates, key, fold)
    ensures wanted == WantedRootsOnDisk(entries, candidates, fold)
  {
    wanted := {};
    for i := 0 to |entries|
      invariant wanted == WantedRootsOnDisk(entries[..i], candidates, fold)
    {
      var e := entries[i];
      assert forall j :: 0 <= j < i ==> entries[..i + 1][j] == entries[..i][j];
      if NeedsRoot(e) && LookUp(byKey, FileKey(fold(e.name.value), e.size.value, e.modifiedS)) != [] {
        wanted := wanted + {e.aichRoot.value};
      }
    }
    assert entries[..|entries|] == entries;
  }

  method SelectPathRows(entries: seq<Entry>, candidates: seq<Candidate>, fold: string -> string, byKey: KeyIndex,
                        known2: HashMap, dryRun: bool) returns (counts: PathCounts, rows: seq<PathRow>)
    requires forall key :: LookUp(byKey, key) == MatchesFor(candidates, key, fold)
    ensures counts == PathOutcome(entries, candidates, fold, known2)
    ensures rows == if dryRun then [] else PathRows(entries, candidates, fold, known2)
  {
    hide EffectiveAich, Md4Fits, HasStats, ExpectedAichHashCount, MatchesFor, LookUp, PathOutcome, EntryMatches;
    counts := PathCounts(0, 0, 0, 0, 0, 0, 0, 0, 0);
    rows := [];
    NothingCounted(candidates, fold, known2);
    for i := 0 to |entries|
      invariant counts == PathOutcome(entries[..i], candidates, fold, known2)
      invariant rows == if dryRun then [] else PathRows(entries[..i], candidates, fold, known2)
    {
      var e := entries[i];
      assert entries[..i + 1] == entries[..i] + [e] && entries[..i + 1][..i] == entries[..i];
      PathOutcomeSnoc(entries[..i], e, candidates, fold, known2);
      if e.name.None? || e.size.None? {
        counts := counts.(missingIdentity := counts.missingIdentity + 1);
        continue;
      }
      if !Md4Fits(e) {
        counts := counts.(md4Mismatch := counts.md4Mismatch + 1);
        continue;
      }
      var matches := LookUp(byKey, FileKey(fold(e.name.value), e.size.value, e.modifiedS));
      MatchesOf(e, candidates, fold);
      if |matches| == 0 {
        counts := counts.(noPathMatch := counts.noPathMatch + 1);
        continue;
      }
      var aich := EffectiveAich(e, known2, e.size.value);
      if UsesKnown2(e, aich) {
        counts := counts.(known2Used := counts.known2Used + 1);
      }
      if e.aichRoot.Some? && |aich| != ExpectedAichHashCount(e.size.value) {
        counts := counts.(aichMismatch := counts.aichMismatch + 1);
        continue;
      }
      counts := counts.(matched := counts.matched + 1);
      if |matches| > 1 {
        counts := counts.(duplicates := counts.duplicates + 1);
      }
      if HasStats(e) {
        counts := counts.(statsRecords := counts.statsRecords + 1, statsPaths := counts.statsPaths + |matches|);
      }
      if !dryRun {
        var added := AppendRows(e, matches, aich);
        rows := rows + added;
      }
    }
    assert entries[..|entries|] == entries;
  }

  lemma NothingCounted(candidates: seq<Candidate>, fold: string -> string, known2: HashMap)
    ensures PathOutcome([], candidates, fold, known2) == PathCounts(0, 0, 0, 0, 0, 0, 0, 0, 0)
  {
  }

  lemma MatchesOf(e: Entry, candidates: seq<Candidate>, fold: string -> string)
    requires e.name.Some? && e.size.Some?
    ensures EntryMatches(e, candidates, fold)
         == MatchesFor(candidates, FileKey(fold(e.name.value), e.size.value, e.modifiedS), fold)
  {
  }

  lemma PathOutcomeSnoc(entries: seq<Entry>, e: Entry, candidates: seq<Candidate>, fold: string -> string,
                        known2: HashMap)
    ensures var before, after := PathOutcome(entries, candidates, fold, known2),
                                 PathOutcome(entries + [e], candidates, fold, known2);
            var verdict, n := PathVerdict(e, candidates, fold, known2), |EntryMatches(e, candidates, fold)|;
            after == PathCounts(
              before.matched + (if verdict.Accepted? then 1 else 0),
              before.duplicates + (if verdict.Accepted? && n > 1 then 1 else 0),
              before.missingIdentity + (if verdict == MissingIdentity then 1 else 0),
              before.md4Mismatch + (if verdict == Md4CountMismatch then 1 else 0),
              before.noPathMatch + (if verdict == NoPathMatch then 1 else 0),
              before.aichMismatch + (if verdict == AichCountMismatch then 1 else 0),
              before.known2Used + (if PathUses(e, candidates, fold, known2) then 1 else 0),
              before.statsRecords + (if verdict.Accepted? && HasStats(e) then 1 else 0),
              before.statsPaths + (if verdict.Accepted? && HasStats(e) then n else 0))
  {
    hide PathVerdict, PathUses, HasStats, EntryMatches;
    assert (entries + [e])[..|entries|] == entries;
  }

  method AppendRows(e: Entry, matches: seq<Candidate>, aich: seq<Bytes>) returns (rows: seq<PathRow>)
    ensures rows == RowsFor(e, matches, aich)
  {
    rows := [];
    for i := 0 to |matches|
      invariant rows == RowsFor(e, matches[..i], aich)
    {
      rows := rows + [PathRow(e, matches[i], aich)];
    }
    assert matches[..|matches|] == matches;
  }

  datatype PathImport = PathImport(counts: PathCounts, rows: seq<PathRow>)

  /** Imports the entries of a known.met file under the paths of the files they match. */
  method ImportHashes(entries: seq<Entry>, candidates: seq<Candidate>, fold: string -> string,
                      known2File: Option<Bytes>, dryRun: bool) returns (r: Result<PathImport>)
    ensures r.Ok? <==> Known2Of(WantedRootsOnDisk(entries, candidates, fold), known2File).Ok?
    ensures r.Ok? ==>
              var known2 := Known2Of(WantedRootsOnDisk(entries, candidates, fold), known2File).value;
              && r.value.counts == PathOutcome(entries, candidates, fold, known2)
              && r.value.rows == if dryRun then [] else PathRows(entries, candidates, fold, known2)
  {
    var byKey := IndexCandidates(candidates, fold);
    var wanted := GatherWantedOnDisk(entries, candidates, fold, byKey);
    var known2 :- ReadKnown2(wanted, known2File);
    var counts, rows := SelectPathRows(entries, candidates, fold, byKey, known2, dryRun);
    return Ok(PathImport(counts, rows));
  }

  lemma {:induction false} PathCountsOnce(entries: seq<Entry>, candidates: seq<Candidate>, fold: string -> string,
                                          known2: HashMap)
    ensures var c := PathOutcome(entries, candidates, fold, known2);
            c.matched + c.missingIdentity + c.md4Mismatch + c.noPathMatch + c.aichMismatch == |entries|
  {
    if entries != [] {
      hide PathVerdict, PathUses, EntryMatches, HasStats, StatsPaths;
      PathCountsOnce(entries[..|entries| - 1], candidates, fold, known2);
    }
  }

  lemma FilterKeepsPathVerdict(e: Entry, candidates: seq<Candidate>, fold: string -> string, full: HashMap,
                               wanted: set<Bytes>)
    requires NeedsRoot(e) && EntryMatches(e, candidates, fold) != [] ==> e.aichRoot.value in wanted
    ensures PathVerdict(e, candidates, fold, Restrict(full, Some(wanted))) == PathVerdict(e, candidates, fold, full)
    ensures PathUses(e, candidates, fold, Restrict(full, Some(wanted))) == PathUses(e, candidates, fold, full)
  {
    hide EffectiveAich, Restrict, MatchesFor;
    if e.size.Some? && e.name.Some? && Md4Fits(e) && EntryMatches(e, candidates, fold) != [] {
      FilterKeepsAich(e, full, wanted);
    }
  }

  lemma {:induction false} PathRowsSame(entries: seq<Entry>, candidates: seq<Candidate>, fold: string -> string,
                                        a: HashMap, b: HashMap)
    requires forall i :: 0 <= i < |entries| ==>
               PathVerdict(entries[i], candidates, fold, a) == PathVerdict(entries[i], candidates, fold, b)
    ensures PathRows(entries, candidates, fold, a) == PathRows(entries, candidates, fold, b)
    ensures StatsPaths(entries, candidates, fold, a) == StatsPaths(entries, candidates, fold, b)
  {
    if entries != [] {
      hide PathVerdict, EntryMatches, RowsFor, HasStats;
      PathRowsSame(entries[..|entries| - 1], candidates, fold, a, b);
    }
  }

  lemma FilterKeepsPathOutcome(entries: seq<Entry>, candidates: seq<Candidate>, fold: string -> string, full: HashMap)
    ensures var part := Restrict(full, Some(WantedRootsOnDisk(entries, candidates, fold)));
            && PathOutcome(entries, candidates, fold, part) == PathOutcome(entries, candidates, fold, full)
            && PathRows(entries, candidates, fold, part) == PathRows(entries, candidates, fold, full)
  {
    hide PathVerdict, PathUses, Restrict, HasStats, EntryMatches, PathRows, StatsPaths;
    var part := Restrict(full, Some(WantedRootsOnDisk(entries, candidates, fold)));
    forall i | 0 <= i < |entries|
      ensures PathVerdict(entries[i], candidates, fold, part) == PathVerdict(entries[i], candidates, fold, full)
      ensures PathUses(entries[i], candidates, fold, part) == PathUses(entries[i], candidates, fold, full)
    {
      FilterKeepsPathVerdict(entries[i], candidates, fold, full, WantedRootsOnDisk(entries, candidates, fold));
    }
    PathRowsSame(entries, candidates, fold, part, full);
    CountSame(entries, (e: Entry) => PathVerdict(e, candidates, fold, part).Accepted?,
              (e: Entry) => PathVerdict(e, candidates, fold, full).Accepted?);
    CountSame(entries, (e: Entry) => PathVerdict(e, candidates, fold, part).Accepted?
                                     && |EntryMatches(e, candidates, fold)| > 1,
              (e: Entry) => PathVerdict(e, candidates, fold, full).Accepted?
                            && |EntryMatches(e, candidates, fold)| > 1);
    CountSame(entries, (e: Entry) => PathVerdict(e, candidates, fold, part) == MissingIdentity,
              (e: Entry) => PathVerdict(e, candidates, fold, full) == MissingIdentity);
    CountSame(entries, (e: Entry) => PathVerdict(e, candidates, fold, part) == Md4CountMismatch,
              (e: Entry) => PathVerdict(e, candidates, fold, full) == Md4CountMismatch);
    CountSame(entries, (e: Entry) => PathVerdict(e, candidates, fold, part) == NoPathMatch,
              (e: Entry) => PathVerdict(e, candidates, fold, full) == NoPathMatch);
    CountSame(entries, (e: Entry) => PathVerdict(e, candidates, fold, part) == AichCountMismatch,
              (e: Entry) => PathVerdict(e, candidates, fold, full) == AichCountMismatch);
    CountSame(entries, (e: Entry) => PathUses(e, candidates, fold, part),
              (e: Entry) => PathUses(e, candidates, fold, full));
    CountSame(entries, (e: Entry) => PathVerdict(e, candidates, fold, part).Accepted? && HasStats(e),
              (e: Entry) => PathVerdict(e, candidates, fold, full).Accepted? && HasStats(e));
  }

  /** The same for the import by path: the same manifests, the same counts. */
  lemma PathImportLosesNothing(entries: seq<Entry>, candidates: seq<Candidate>, fold: string -> string, d: Bytes)
    requires Layout(d).Ok?
    ensures var known2 := Known2Of(WantedRootsOnDisk(entries, candidates, fold), Some(d));
            var full := ImportFile(d, None);
            && known2.Ok? && full.Ok?
            && PathOutcome(entries, candidates, fold, known2.value)
               == PathOutcome(entries, candidates, fold, full.value)
            && PathRows(entries, candidates, fold, known2.value) == PathRows(entries, candidates, fold, full.value)
  {
    hide PathOutcome, PathRows, Restrict;
    Known2OfIsRestriction(WantedRootsOnDisk(entries, candidates, fold), d);
    FilterKeepsPathOutcome(entries, candidates, fold, ImportFile(d, None).value);
  }
}
