/** Which entries an import takes, with which hashes and under which paths, told of the entries and the files. */
module ImportMeaning {
  import opened Outcomes
  import opened Hex
  import opened PieceArithmetic
  import opened KnownMetImport
  import opened Known2
  import opened ImportSelection

  // ---------------------------------------------------------------- one entry

  /** The AICH hashes that a file of some size has: none up to one part, and then one for each part begun. */
  function AichParts(size: nat): nat {
    if size <= 9_728_000 then 0 else (size + 9_727_999) / 9_728_000
  }

  /** As many part hashes as the size asks for: none below one part, and then one more than the whole parts. */
  predicate Md4Right(e: Entry) {
    e.size.Some? && |e.md4| == if e.size.value < 9_728_000 then 0 else e.size.value / 9_728_000 + 1
  }

  predicate Served(e: Entry) {
    e.uploadedBytes != 0 || e.uploadRequests != 0 || e.uploadAccepts != 0 || e.lastUploadRequestMs != 0
  }

  /** The hashes an entry is imported with: its own; else those of its root, when they are as many as its parts. */
  predicate AichOf(e: Entry, known2: HashMap, aich: seq<Bytes>) {
    if e.aich != [] then aich == e.aich
    else if e.aichRoot.Some? && e.aichRoot.value in known2 && e.size.Some?
            && |known2[e.aichRoot.value]| == AichParts(e.size.value) then aich == known2[e.aichRoot.value]
    else aich == []
  }

  /** An entry with a root must have as many hashes as its size has parts. */
  predicate AichRight(e: Entry, aich: seq<Bytes>) {
    e.aichRoot.Some? && e.size.Some? ==> |aich| == AichParts(e.size.value)
  }

  predicate Identified(e: Entry) {
    e.name.Some? && e.size.Some? && e.size.value != 0 && e.modifiedS != 0
  }

  lemma PartCountsAre(size: nat)
    ensures ExpectedAichHashCount(size) == AichParts(size)
    ensures ExpectedMd4HashCount(size) == if size < 9_728_000 then 0 else size / 9_728_000 + 1
  {
  }

  lemma AichIsThat(e: Entry, known2: HashMap)
    requires e.size.Some?
    ensures forall aich :: AichOf(e, known2, aich) <==> aich == EffectiveAich(e, known2, e.size.value)
  {
    hide ExpectedAichHashCount, AichParts;
    PartCountsAre(e.size.value);
  }

  /** The verdict on an entry without a path. */
  lemma CacheVerdictIs(e: Entry, known2: HashMap)
    ensures CacheVerdict(e, known2) == MissingIdentity <==> !Identified(e)
    ensures CacheVerdict(e, known2) == Md4CountMismatch <==> Identified(e) && !Md4Right(e)
    ensures CacheVerdict(e, known2) == AichCountMismatch <==>
            Identified(e) && Md4Right(e) && forall aich :: AichOf(e, known2, aich) ==> !AichRight(e, aich)
    ensures forall aich :: CacheVerdict(e, known2) == Accepted(aich) <==>
                           Identified(e) && Md4Right(e) && AichOf(e, known2, aich) && AichRight(e, aich)
  {
    hide EffectiveAich, AichOf, AichParts, ExpectedAichHashCount, ExpectedMd4HashCount;
    if e.size.Some? {
      PartCountsAre(e.size.value);
      AichIsThat(e, known2);
      assert AichOf(e, known2, EffectiveAich(e, known2, e.size.value));
    }
  }

  /** A root is looked up for exactly the entries with a name and the right part hashes, but no AICH hashes yet. */
  lemma NeedsRootIs(e: Entry)
    ensures NeedsRoot(e) <==>
            && e.aichRoot != None && e.aich == [] && e.name != None && e.size != None
            && e.size.value > 9_728_000 && Md4Right(e)
  {
    if e.size.Some? {
      PartCountsAre(e.size.value);
    }
  }

  // ---------------------------------------------------------------- counts and rows without paths

  function Places(entries: seq<Entry>, holds: Entry -> bool): set<nat> {
    set i: nat | i < |entries| && holds(entries[i])
  }

  /** A count is the number of entries with the property. */
  lemma {:induction false} CountIs(entries: seq<Entry>, holds: Entry -> bool)
    ensures Count(entries, holds) == |Places(entries, holds)|
  {
    if entries != [] {
      CountIs(entries[..|entries| - 1], holds);
      OneMorePlace(entries[..|entries| - 1], entries[|entries| - 1], holds);
      assert entries == entries[..|entries| - 1] + [entries[|entries| - 1]];
      hide Places;
    }
  }

  lemma OneMorePlace(entries: seq<Entry>, e: Entry, holds: Entry -> bool)
    ensures |entries| !in Places(entries, holds)
    ensures Places(entries + [e], holds) == Places(entries, holds) + if holds(e) then {|entries|} else {}
  {
  }

  predicate Ascending(at: seq<nat>, bound: nat) {
    && (forall r :: 0 <= r < |at| ==> at[r] < bound)
    && (forall q, r :: 0 <= q < r < |at| ==> at[q] < at[r])
  }

  /** The rows are those of the accepted entries, in order, each with the hashes it was accepted with. */
  ghost predicate CacheRowsAt(entries: seq<Entry>, known2: HashMap, rows: seq<CacheRow>, at: seq<nat>) {
    && |at| == |rows| && Ascending(at, |entries|)
    && (forall r :: 0 <= r < |at| ==>
          rows[r].entry == entries[at[r]] && CacheVerdict(entries[at[r]], known2) == Accepted(rows[r].aich))
    && (forall i :: 0 <= i < |entries| ==> (i in at <==> CacheVerdict(entries[i], known2).Accepted?))
  }

  lemma CacheRowsSnoc(entries: seq<Entry>, e: Entry, known2: HashMap, rows: seq<CacheRow>, at: seq<nat>)
    requires CacheRowsAt(entries, known2, rows, at)
    ensures if CacheVerdict(e, known2).Accepted? then
              CacheRowsAt(entries + [e], known2, rows + [CacheRow(e, CacheVerdict(e, known2).aich)],
                          at + [|entries|])
            else CacheRowsAt(entries + [e], known2, rows, at)
  {
    hide CacheVerdict;
    var more := at + [|entries|];
    assert forall i :: 0 <= i < |entries| ==> (i in more <==> i in at);
    assert more[|at|] == |entries|;
  }

  lemma {:induction false} CacheRowsAre(entries: seq<Entry>, known2: HashMap) returns (at: seq<nat>)
    ensures CacheRowsAt(entries, known2, CacheRows(entries, known2), at)
  {
    if entries == [] {
      at := [];
    } else {
      hide CacheRowsAt, CacheVerdict;
      var n := |entries| - 1;
      at := CacheRowsAre(entries[..n], known2);
      CacheRowsSnoc(entries[..n], entries[n], known2, CacheRows(entries[..n], known2), at);
      assert entries == entries[..n] + [entries[n]];
      if CacheVerdict(entries[n], known2).Accepted? {
        at := at + [n];
      }
    }
  }

  /** The counts of an import without paths, each as the entries it counts. */
  lemma CacheCountsAre(entries: seq<Entry>, known2: HashMap)
    ensures var s := CacheOutcome(entries, known2);
            && s.missingIdentity == Count(entries, (e: Entry) => !Identified(e))
            && s.md4Mismatch == Count(entries, (e: Entry) => Identified(e) && !Md4Right(e))
            && s.aichMismatch == Count(entries, (e: Entry) => CacheVerdict(e, known2) == AichCountMismatch)
            && s.known2Used == Count(entries, (e: Entry) => Identified(e) && Md4Right(e) && FoundInKnown2(e, known2))
            && s.statsRecords == Count(entries, (e: Entry) => CacheVerdict(e, known2).Accepted? && Served(e))
  {
    hide CacheVerdict, CacheUses, HasStats, Count, CacheRows, Identified, Md4Right, FoundInKnown2, Served;
    forall e: Entry
      ensures CacheVerdict(e, known2) == MissingIdentity <==> !Identified(e)
      ensures CacheVerdict(e, known2) == Md4CountMismatch <==> Identified(e) && !Md4Right(e)
      ensures CacheUses(e, known2) <==> Identified(e) && Md4Right(e) && FoundInKnown2(e, known2)
      ensures HasStats(e) <==> Served(e)
    {
      CacheVerdictIs(e, known2);
      TakesIs(e, known2);
    }
    CountSame(entries, (e: Entry) => CacheVerdict(e, known2) == MissingIdentity, (e: Entry) => !Identified(e));
    CountSame(entries, (e: Entry) => CacheVerdict(e, known2) == Md4CountMismatch,
              (e: Entry) => Identified(e) && !Md4Right(e));
    CountSame(entries, (e: Entry) => CacheUses(e, known2),
              (e: Entry) => Identified(e) && Md4Right(e) && FoundInKnown2(e, known2));
    CountSame(entries, (e: Entry) => CacheVerdict(e, known2).Accepted? && HasStats(e),
              (e: Entry) => CacheVerdict(e, known2).Accepted? && Served(e));
  }

  /** The entry has no hashes of its own, and its root has some, as many as its parts. */
  predicate FoundInKnown2(e: Entry, known2: HashMap) {
    && e.size.Some? && e.aich == [] && e.aichRoot.Some? && e.aichRoot.value in known2
    && known2[e.aichRoot.value] != [] && |known2[e.aichRoot.value]| == AichParts(e.size.value)
  }

  lemma TakesIs(e: Entry, known2: HashMap)
    ensures CacheUses(e, known2) <==> Identified(e) && Md4Right(e) && FoundInKnown2(e, known2)
    ensures HasStats(e) <==> Served(e)
  {
    hide AichParts, ExpectedAichHashCount, ExpectedMd4HashCount;
    if e.size.Some? {
      PartCountsAre(e.size.value);
    }
  }

  // ---------------------------------------------------------------- import by path

  /** A file on disk stands for an entry when its folded name, its size and its time in whole seconds agree. */
  predicate Fits(e: Entry, c: Candidate, fold: string -> string) {
    && e.name.Some? && e.size.Some? && fold(c.name) == fold(e.name.value)
    && c.size == e.size.value && c.mtimeS == e.modifiedS
  }

  /** The matches of an entry are the fitting files, in order. */
  ghost predicate MatchesAt(e: Entry, candidates: seq<Candidate>, fold: string -> string, matches: seq<Candidate>,
                            at: seq<nat>)
  {
    && |at| == |matches| && Ascending(at, |candidates|)
    && (forall r :: 0 <= r < |at| ==> matches[r] == candidates[at[r]])
    && (forall j :: 0 <= j < |candidates| ==> (j in at <==> Fits(e, candidates[j], fold)))
  }

  lemma MatchesSnoc(e: Entry, candidates: seq<Candidate>, c: Candidate, fold: string -> string,
                    matches: seq<Candidate>, at: seq<nat>)
    requires MatchesAt(e, candidates, fold, matches, at)
    ensures if Fits(e, c, fold) then MatchesAt(e, candidates + [c], fold, matches + [c], at + [|candidates|])
            else MatchesAt(e, candidates + [c], fold, matches, at)
  {
    hide Fits;
    var more := at + [|candidates|];
    assert forall i :: 0 <= i < |candidates| ==> (i in more <==> i in at);
    assert more[|at|] == |candidates|;
  }

  lemma {:induction false} MatchesAre(e: Entry, candidates: seq<Candidate>, fold: string -> string)
    returns (at: seq<nat>)
    ensures MatchesAt(e, candidates, fold, EntryMatches(e, candidates, fold), at)
  {
    if candidates == [] {
      at := [];
    } else {
      hide MatchesAt;
      var n := |candidates| - 1;
      at := MatchesAre(e, candidates[..n], fold);
      MatchesSnoc(e, candidates[..n], candidates[n], fold, EntryMatches(e, candidates[..n], fold), at);
      assert candidates == candidates[..n] + [candidates[n]];
      if Fits(e, candidates[n], fold) {
        at := at + [n];
      }
    }
  }

  /** Some file on disk fits the entry. */
  predicate OnDisk(e: Entry, candidates: seq<Candidate>, fold: string -> string) {
    exists j :: 0 <= j < |candidates| && Fits(e, candidates[j], fold)
  }

  lemma OnDiskIs(e: Entry, candidates: seq<Candidate>, fold: string -> string)
    ensures EntryMatches(e, candidates, fold) != [] <==> OnDisk(e, candidates, fold)
  {
    hide Fits, EntryMatches;
    var at := MatchesAre(e, candidates, fold);
    if EntryMatches(e, candidates, fold) != [] {
      assert at[0] in at;
    }
  }

  /** The verdict on an entry imported by path; its size and its time may be zero here. */
  lemma PathVerdictIs(e: Entry, candidates: seq<Candidate>, fold: string -> string, known2: HashMap)
    ensures var verdict := PathVerdict(e, candidates, fold, known2);
            var named := e.name.Some? && e.size.Some?;
            var found := named && Md4Right(e) && OnDisk(e, candidates, fold);
            && (verdict == MissingIdentity <==> !named)
            && (verdict == Md4CountMismatch <==> named && !Md4Right(e))
            && (verdict == NoPathMatch <==> named && Md4Right(e) && !OnDisk(e, candidates, fold))
            && (verdict == AichCountMismatch <==>
                found && forall aich :: AichOf(e, known2, aich) ==> !AichRight(e, aich))
            && (forall aich ::
                  verdict == Accepted(aich) <==> found && AichOf(e, known2, aich) && AichRight(e, aich))
    ensures PathUses(e, candidates, fold, known2) <==>
            e.name.Some? && Md4Right(e) && OnDisk(e, candidates, fold) && FoundInKnown2(e, known2)
  {
    hide AichParts, ExpectedAichHashCount, ExpectedMd4HashCount, EntryMatches, OnDisk;
    OnDiskIs(e, candidates, fold);
    if e.size.Some? {
      PartCountsAre(e.size.value);
      AichIsThat(e, known2);
      assert AichOf(e, known2, EffectiveAich(e, known2, e.size.value));
    }
  }

  /** A manifest row: which entry, and which file. */
  datatype Pair = Pair(entry: nat, file: nat)

  predicate Before(p: Pair, q: Pair) {
    p.entry < q.entry || (p.entry == q.entry && p.file < q.file)
  }

  predicate InOrder(at: seq<Pair>, entries: nat, files: nat) {
    && (forall r :: 0 <= r < |at| ==> at[r].entry < entries && at[r].file < files)
    && (forall q, r :: 0 <= q < r < |at| ==> Before(at[q], at[r]))
  }

  /** The entry is accepted and the file fits it. */
  predicate IsRow(entries: seq<Entry>, candidates: seq<Candidate>, fold: string -> string, known2: HashMap, p: Pair) {
    && p.entry < |entries| && p.file < |candidates|
    && PathVerdict(entries[p.entry], candidates, fold, known2).Accepted?
    && Fits(entries[p.entry], candidates[p.file], fold)
  }

  /** Each pair of an accepted entry and a file that fits it has one row, entry by entry and file by file. */
  ghost predicate PathRowsAt(entries: seq<Entry>, candidates: seq<Candidate>, fold: string -> string, known2: HashMap,
                             rows: seq<PathRow>, at: seq<Pair>)
  {
    && |at| == |rows| && InOrder(at, |entries|, |candidates|)
    && (forall r :: 0 <= r < |at| ==>
          && rows[r].entry == entries[at[r].entry] && rows[r].candidate == candidates[at[r].file]
          && PathVerdict(entries[at[r].entry], candidates, fold, known2) == Accepted(rows[r].aich))
    && (forall p :: p in at <==> IsRow(entries, candidates, fold, known2, p))
  }

  function PairsOf(i: nat, files: seq<nat>): (pairs: seq<Pair>)
    ensures |pairs| == |files| && forall r :: 0 <= r < |files| ==> pairs[r] == Pair(i, files[r])
    ensures forall p :: p in pairs <==> p.entry == i && p.file in files
  {
    var pairs := seq(|files|, r requires 0 <= r < |files| => Pair(i, files[r]));
    assert forall j :: 0 <= j < |files| ==> pairs[j] in pairs;
    pairs
  }

  lemma InOrderSnoc(at: seq<Pair>, n: nat, files: seq<nat>, bound: nat)
    requires InOrder(at, n, bound) && Ascending(files, bound)
    ensures InOrder(at + PairsOf(n, files), n + 1, bound)
  {
  }

  lemma IsRowSnoc(entries: seq<Entry>, e: Entry, candidates: seq<Candidate>, fold: string -> string, known2: HashMap,
                  files: seq<nat>)
    requires forall j :: 0 <= j < |candidates| ==> (j in files <==> Fits(e, candidates[j], fold))
    requires Ascending(files, |candidates|)
    ensures forall p :: IsRow(entries + [e], candidates, fold, known2, p) <==>
                        || IsRow(entries, candidates, fold, known2, p)
                        || (PathVerdict(e, candidates, fold, known2).Accepted? && p in PairsOf(|entries|, files))
  {
    hide PathVerdict, Fits;
    var all := entries + [e];
    assert all[|entries|] == e && forall i :: 0 <= i < |entries| ==> all[i] == entries[i];
    forall p
      ensures p in PairsOf(|entries|, files) <==>
              p.entry == |entries| && p.file < |candidates| && Fits(e, candidates[p.file], fold)
    {
      if p in PairsOf(|entries|, files) {
        var r :| 0 <= r < |files| && files[r] == p.file;
      }
    }
  }

  lemma PathRowsSnoc(entries: seq<Entry>, e: Entry, candidates: seq<Candidate>, fold: string -> string,
                     known2: HashMap, rows: seq<PathRow>, at: seq<Pair>)
    returns (next: seq<Pair>)
    requires PathRowsAt(entries, candidates, fold, known2, rows, at)
    ensures var verdict := PathVerdict(e, candidates, fold, known2);
            if verdict.Accepted? then
              PathRowsAt(entries + [e], candidates, fold, known2,
                         rows + RowsFor(e, EntryMatches(e, candidates, fold), verdict.aich), next)
            else PathRowsAt(entries + [e], candidates, fold, known2, rows, next)
  {
    hide PathVerdict, Fits, EntryMatches, InOrder, IsRow, PathRowsAt;
    var files := MatchesAre(e, candidates, fold);
    if PathVerdict(e, candidates, fold, known2).Accepted? {
      next := at + PairsOf(|entries|, files);
      AcceptedRowsSnoc(entries, e, candidates, fold, known2, rows, at, files);
    } else {
      next := at;
      OtherRowsSnoc(entries, e, candidates, fold, known2, rows, at, files);
    }
  }

  lemma OtherRowsSnoc(entries: seq<Entry>, e: Entry, candidates: seq<Candidate>, fold: string -> string,
                      known2: HashMap, rows: seq<PathRow>, at: seq<Pair>, files: seq<nat>)
    requires PathRowsAt(entries, candidates, fold, known2, rows, at)
    requires MatchesAt(e, candidates, fold, EntryMatches(e, candidates, fold), files)
    requires !PathVerdict(e, candidates, fold, known2).Accepted?
    ensures PathRowsAt(entries + [e], candidates, fold, known2, rows, at)
  {
    hide PathVerdict, Fits, EntryMatches, InOrder, IsRow;
    IsRowSnoc(entries, e, candidates, fold, known2, files);
    InOrderSnoc(at, |entries|, [], |candidates|);
    assert at + PairsOf(|entries|, []) == at;
    InBounds(at, |entries|, |candidates|);
  }

  lemma AcceptedRowsSnoc(entries: seq<Entry>, e: Entry, candidates: seq<Candidate>, fold: string -> string,
                         known2: HashMap, rows: seq<PathRow>, at: seq<Pair>, files: seq<nat>)
    requires PathRowsAt(entries, candidates, fold, known2, rows, at)
    requires MatchesAt(e, candidates, fold, EntryMatches(e, candidates, fold), files)
    requires PathVerdict(e, candidates, fold, known2).Accepted?
    ensures PathRowsAt(entries + [e], candidates, fold, known2,
                       rows + RowsFor(e, EntryMatches(e, candidates, fold),
                                      PathVerdict(e, candidates, fold, known2).aich),
                       at + PairsOf(|entries|, files))
  {
    hide PathVerdict, Fits, EntryMatches, InOrder, IsRow, PairsOf;
    IsRowSnoc(entries, e, candidates, fold, known2, files);
    InOrderSnoc(at, |entries|, files, |candidates|);
    InBounds(at, |entries|, |candidates|);
  }

  lemma InBounds(at: seq<Pair>, entries: nat, files: nat)
    requires InOrder(at, entries, files)
    ensures forall r :: 0 <= r < |at| ==> at[r].entry < entries && at[r].file < files
  {
  }

  lemma {:induction false} PathRowsAre(entries: seq<Entry>, candidates: seq<Candidate>, fold: string -> string,
                                       known2: HashMap) returns (at: seq<Pair>)
    ensures PathRowsAt(entries, candidates, fold, known2, PathRows(entries, candidates, fold, known2), at)
  {
    if entries == [] {
      at := [];
    } else {
      hide PathRowsAt, PathVerdict, EntryMatches, RowsFor;
      var n := |entries| - 1;
      at := PathRowsAre(entries[..n], candidates, fold, known2);
      at := PathRowsSnoc(entries[..n], entries[n], candidates, fold, known2,
                         PathRows(entries[..n], candidates, fold, known2), at);
      assert entries == entries[..n] + [entries[n]];
    }
  }

  /** The counts of an import by path, each as the entries it counts. */
  lemma PathCountsAre(entries: seq<Entry>, candidates: seq<Candidate>, fold: string -> string, known2: HashMap)
    ensures var c := PathOutcome(entries, candidates, fold, known2);
            && c.missingIdentity == Count(entries, (e: Entry) => e.name.None? || e.size.None?)
            && c.md4Mismatch == Count(entries, (e: Entry) => e.name.Some? && e.size.Some? && !Md4Right(e))
            && c.noPathMatch ==
               Count(entries, (e: Entry) => e.name.Some? && Md4Right(e) && !OnDisk(e, candidates, fold))
            && c.aichMismatch ==
               Count(entries, (e: Entry) => PathVerdict(e, candidates, fold, known2) == AichCountMismatch)
            && c.matched == Count(entries, (e: Entry) => PathVerdict(e, candidates, fold, known2).Accepted?)
            && c.known2Used == Count(entries, (e: Entry) => e.name.Some? && Md4Right(e) && OnDisk(e, candidates, fold)
                                                            && FoundInKnown2(e, known2))
            && c.statsRecords ==
               Count(entries, (e: Entry) => PathVerdict(e, candidates, fold, known2).Accepted? && Served(e))
  {
    hide PathVerdict, PathUses, HasStats, Count, Md4Right, FoundInKnown2, Served, OnDisk, EntryMatches, StatsPaths;
    forall e: Entry
      ensures PathVerdict(e, candidates, fold, known2) == MissingIdentity <==> e.name.None? || e.size.None?
      ensures PathVerdict(e, candidates, fold, known2) == Md4CountMismatch <==>
              e.name.Some? && e.size.Some? && !Md4Right(e)
      ensures PathVerdict(e, candidates, fold, known2) == NoPathMatch <==>
              e.name.Some? && Md4Right(e) && !OnDisk(e, candidates, fold)
      ensures PathUses(e, candidates, fold, known2) <==>
              e.name.Some? && Md4Right(e) && OnDisk(e, candidates, fold) && FoundInKnown2(e, known2)
      ensures HasStats(e) <==> Served(e)
    {
      PathVerdictIs(e, candidates, fold, known2);
      TakesIs(e, known2);
      Md4RightSized(e);
    }
    CountSame(entries, (e: Entry) => PathVerdict(e, candidates, fold, known2) == MissingIdentity,
              (e: Entry) => e.name.None? || e.size.None?);
    CountSame(entries, (e: Entry) => PathVerdict(e, candidates, fold, known2) == Md4CountMismatch,
              (e: Entry) => e.name.Some? && e.size.Some? && !Md4Right(e));
    CountSame(entries, (e: Entry) => PathVerdict(e, candidates, fold, known2) == NoPathMatch,
              (e: Entry) => e.name.Some? && Md4Right(e) && !OnDisk(e, candidates, fold));
    CountSame(entries, (e: Entry) => PathUses(e, candidates, fold, known2),
              (e: Entry) => e.name.Some? && Md4Right(e) && OnDisk(e, candidates, fold) && FoundInKnown2(e, known2));
    CountSame(entries, (e: Entry) => PathVerdict(e, candidates, fold, known2).Accepted? && HasStats(e),
              (e: Entry) => PathVerdict(e, candidates, fold, known2).Accepted? && Served(e));
  }

  lemma Md4RightSized(e: Entry)
    ensures Md4Right(e) ==> e.size.Some?
  {
  }

  /** The source paths counted for statistics are the rows whose entries have some. */
  lemma {:induction false} StatsPathsAre(entries: seq<Entry>, candidates: seq<Candidate>, fold: string -> string,
                                         known2: HashMap)
    ensures StatsPaths(entries, candidates, fold, known2) ==
            ServedRows(PathRows(entries, candidates, fold, known2))
  {
    if entries != [] {
      hide PathVerdict, EntryMatches, RowsFor;
      var init, e := entries[..|entries| - 1], entries[|entries| - 1];
      StatsPathsAre(init, candidates, fold, known2);
      if PathVerdict(e, candidates, fold, known2).Accepted? {
        var matches := EntryMatches(e, candidates, fold);
        var aich := PathVerdict(e, candidates, fold, known2).aich;
        ServedRowsConcat(PathRows(init, candidates, fold, known2), RowsFor(e, matches, aich));
        ServedRowsFor(e, matches, aich);
      }
    }
  }

  function ServedRows(rows: seq<PathRow>): nat {
    if rows == [] then 0
    else ServedRows(rows[..|rows| - 1]) + if Served(rows[|rows| - 1].entry) then 1 else 0
  }

  lemma {:induction false} ServedRowsConcat(a: seq<PathRow>, b: seq<PathRow>)
    ensures ServedRows(a + b) == ServedRows(a) + ServedRows(b)
  {
    if b == [] {
      assert a + b == a;
    } else {
      ServedRowsConcat(a, b[..|b| - 1]);
      assert (a + b)[..|a + b| - 1] == a + b[..|b| - 1];
    }
  }

  lemma {:induction false} ServedRowsFor(e: Entry, matches: seq<Candidate>, aich: seq<Bytes>)
    ensures ServedRows(RowsFor(e, matches, aich)) == if HasStats(e) then |matches| else 0
  {
    if matches != [] {
      ServedRowsFor(e, matches[..|matches| - 1], aich);
      assert RowsFor(e, matches, aich)[..|matches| - 1] == RowsFor(e, matches[..|matches| - 1], aich);
    }
  }
}
