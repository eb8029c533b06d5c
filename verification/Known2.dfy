/** The two parsers of known2 files: AICH roots, each with its part hashes, up to the end of the file. */
module Known2 {
  import opened Outcomes
  import opened Hex
  import opened MetFormat
  import opened FileAccess

  /** One record and where it starts. */
  datatype Record = Record(offset: nat, root: Bytes, hashes: seq<Bytes>)

  function RecordEnd(r: Record): nat {
    r.offset + 24 + 20 * |r.hashes|
  }

  function HashesAt(d: Bytes, p: nat, count: nat): (hashes: seq<Bytes>)
    requires p + 20 * count <= |d|
    ensures |hashes| == count
  {
    seq(count, i requires 0 <= i < count => d[p + 20 * i..p + 20 * i + 20])
  }

  function CountAt(d: Bytes, p: nat): nat
    requires p + 24 <= |d|
  {
    LittleEndian(d[p + 20..p + 24])
  }

  /** The records from `p` to the end of the file; an error when they do not end exactly there. */
  function Records(d: Bytes, p: nat): Result<seq<Record>>
    requires p <= |d|
    decreases |d| - p
  {
    if p == |d| then Ok([])
    else if p + 24 > |d| || p + 24 + 20 * CountAt(d, p) > |d| then Err(Truncated)
    else
      var count := CountAt(d, p);
      var rest :- Records(d, p + 24 + 20 * count);
      Ok([Record(p, d[p..p + 20], HashesAt(d, p + 24, count))] + rest)
  }

  /** The layout of a whole file. */
  function Layout(d: Bytes): Result<seq<Record>> {
    if d == [] then Err(Truncated) else if d[0] != KNOWN2_MET_VERSION then Err(BadHeader) else Records(d, 1)
  }

  /** The bytes of a record: a root of twenty bytes, a count of four, and that many hashes of twenty. */
  ghost predicate HoldsRecord(d: Bytes, r: Record) {
    && RecordEnd(r) <= |d| && r.root == d[r.offset..r.offset + 20] && |r.hashes| == FourBytes(d, r.offset + 20)
    && forall j: nat :: j < |r.hashes| ==> HoldsHash(d, r.offset + 24, j, r.hashes[j])
  }

  ghost predicate HoldsHash(d: Bytes, p: nat, j: nat, hash: Bytes) {
    p + 20 * j + 20 <= |d| && hash == d[p + 20 * j..p + 20 * j + 20]
  }

  lemma RecordIsHeld(d: Bytes, p: nat)
    requires p + 24 <= |d| && p + 24 + 20 * CountAt(d, p) <= |d|
    ensures HoldsRecord(d, Record(p, d[p..p + 20], HashesAt(d, p + 24, CountAt(d, p))))
  {
    hide LittleEndian;
    LittleEndianIs(d[p + 20..p + 24]);
  }

  /** The records of a file follow one another from offset 1 to its end, behind a header byte of two. */
  lemma RecordsTile(d: Bytes)
    requires Layout(d).Ok?
    ensures |d| > 0 && d[0] == 2 && forall i :: 0 <= i < |Layout(d).value| ==> HoldsRecord(d, Layout(d).value[i])
    ensures var rs := Layout(d).value;
            && (rs == [] <==> |d| == 1)
            && (rs != [] ==> rs[0].offset == 1 && RecordEnd(rs[|rs| - 1]) == |d|)
            && forall i :: 0 <= i < |rs| - 1 ==> rs[i + 1].offset == RecordEnd(rs[i])
  {
    RecordsTileFrom(d, 1);
  }

  lemma {:induction false} RecordsTileFrom(d: Bytes, p: nat)
    requires p <= |d| && Records(d, p).Ok?
    ensures forall i :: 0 <= i < |Records(d, p).value| ==> HoldsRecord(d, Records(d, p).value[i])
    ensures var rs := Records(d, p).value;
            && (rs == [] <==> |d| == p)
            && (rs != [] ==> rs[0].offset == p && RecordEnd(rs[|rs| - 1]) == |d|)
            && forall i :: 0 <= i < |rs| - 1 ==> rs[i + 1].offset == RecordEnd(rs[i])
    decreases |d| - p
  {
    if p < |d| {
      hide HoldsRecord, HashesAt, CountAt;
      RecordIsHeld(d, p);
      RecordsTileFrom(d, p + 24 + 20 * CountAt(d, p));
      var rest := Records(d, p + 24 + 20 * CountAt(d, p)).value;
      assert Records(d, p).value[1..] == rest;
    }
  }

  /** Offsets that lead from 1 to the end of the file, each past the record before it, make a file of the layout. */
  ghost predicate Tiling(d: Bytes, at: seq<nat>) {
    && at != [] && at[|at| - 1] == |d|
    && forall i :: 0 <= i < |at| - 1 ==>
         at[i] + 24 <= |d| && at[i + 1] == at[i] + 24 + 20 * FourBytes(d, at[i] + 20)
  }

  lemma {:induction false} TilingIsAccepted(d: Bytes, at: seq<nat>)
    requires Tiling(d, at)
    ensures at[0] <= |d| && Records(d, at[0]).Ok? && |Records(d, at[0]).value| == |at| - 1
  {
    if |at| > 1 {
      hide FourBytes, HashesAt, LittleEndian;
      assert at[1..][0] == at[1];
      TilingIsAccepted(d, at[1..]);
      LittleEndianIs(d[at[0] + 20..at[0] + 24]);
      assert FourBytes(d, at[0] + 20) == CountAt(d, at[0]) by {
        FourBytesOf(d, at[0] + 20);
      }
    }
  }

  lemma FourBytesOf(d: Bytes, p: nat)
    requires p + 4 <= |d|
    ensures FourBytes(d[p..p + 4], 0) == FourBytes(d, p)
  {
  }

  // ---------------------------------------------------------------- the dumper

  /** A dumped record; the hash list is left out in summary mode. */
  datatype DumpRecord = DumpRecord(
    index: nat, offset: nat, aichRoot: Bytes, hashCount: nat, hashBytes: nat, hashes: Option<seq<Bytes>>)

  datatype Dump = Dump(records: seq<DumpRecord>, totalLeafHashes: nat, lastValidOffset: nat, trailingBytes: int)

  function Shown(rs: seq<Record>, from: nat, summary: bool): (shown: seq<DumpRecord>)
    ensures |shown| == |rs|
  {
    seq(|rs|, i requires 0 <= i < |rs| =>
      DumpRecord(from + i, rs[i].offset, rs[i].root, |rs[i].hashes|, 20 * |rs[i].hashes|,
                 if summary then None else Some(rs[i].hashes)))
  }

  function LeafHashes(rs: seq<Record>): nat {
    if rs == [] then 0 else |rs[0].hashes| + LeafHashes(rs[1..])
  }

  method DumpHashes(f: FileReader, count: nat) returns (hashes: seq<Bytes>)
    requires f.cursor + 20 * count <= |f.data|
    modifies f`cursor
    ensures hashes == HashesAt(f.data, old(f.cursor), count) && f.cursor == old(f.cursor) + 20 * count
  {
    hashes := [];
    ghost var start := f.cursor;
    for i := 0 to count
      invariant f.cursor == start + 20 * i && hashes == HashesAt(f.data, start, i)
    {
      var chunk := f.ReadUpTo(20);
      hashes := hashes + [chunk];
    }
  }

  /** Reads one record and moves past it. */
  method DumpOneRecord(f: FileReader, index: nat, summary: bool) returns (r: Result<DumpRecord>)
    requires f.cursor < |f.data|
    modifies f`cursor
    ensures r.Ok? <==>
            old(f.cursor) + 24 <= |f.data| && old(f.cursor) + 24 + 20 * CountAt(f.data, old(f.cursor)) <= |f.data|
    ensures r.Ok? ==> var p := old(f.cursor); var count := CountAt(f.data, p);
                      && f.cursor == p + 24 + 20 * count
                      && r.value == DumpRecord(index, p, f.data[p..p + 20], count, 20 * count,
                                               if summary then None else Some(HashesAt(f.data, p + 24, count)))
  {
    hide LittleEndian;
    var size := |f.data|;
    var offset := f.Tell();
    var rootHash :- f.Read(20);
    var hashCount :- f.ReadUint(4);
    var hashBytes := hashCount * 20;
    if f.Tell() + hashBytes > size {
      return Err(Truncated);
    }
    var hashes: Option<seq<Bytes>> := None;
    if summary {
      f.SeekBy(hashBytes);
    } else {
      var all := DumpHashes(f, hashCount);
      hashes := Some(all);
    }
    return Ok(DumpRecord(index, offset, rootHash, hashCount, hashBytes, hashes));
  }

  /** Dumps a known2 file; it accepts exactly the files of the layout, in either mode, and shows their records. */
  method DumpKnown2(d: Bytes, summary: bool) returns (r: Result<Dump>)
    ensures r.Ok? <==> Layout(d).Ok?
    ensures r.Ok? ==> var rs := Layout(d).value;
                      r.value == Dump(Shown(rs, 0, summary), LeafHashes(rs), |d|, 0)
  {
    hide HashesAt, CountAt, Uint, Records, Shown, LeafHashes, LittleEndian;
    var f := new FileReader(d);
    NothingToShow(d, 0, summary);
    if d != [] {
      OneByte(d, 0);
    }
    var version :- f.ReadUint(1);
    if version != KNOWN2_MET_VERSION {
      return Err(BadHeader);
    }
    var records: seq<DumpRecord> := [];
    var index, totalLeafHashes := 0, 0;
    while f.Tell() < |d|
      invariant 1 <= f.cursor <= |d| && index == |records|
      invariant Layout(d).Ok? <==> Records(d, f.cursor).Ok?
      invariant Layout(d).Ok? ==> var rest := Records(d, f.cursor).value;
                && Shown(Layout(d).value, 0, summary) == records + Shown(rest, index, summary)
                && LeafHashes(Layout(d).value) == totalLeafHashes + LeafHashes(rest)
      decreases |d| - f.cursor
    {
      ghost var offset := f.cursor;
      if Layout(d).Ok? {
        RecordsFit(d, offset);
      }
      var record :- DumpOneRecord(f, index, summary);
      ShownCons(d, offset, index, summary);
      records := records + [record];
      totalLeafHashes := totalLeafHashes + record.hashCount;
      index := index + 1;
    }
    NothingToShow(d, index, summary);
    return Ok(Dump(records, totalLeafHashes, f.Tell(), |d| - f.Tell()));
  }

  lemma NothingToShow(d: Bytes, index: nat, summary: bool)
    ensures Records(d, |d|) == Ok([]) && Shown([], index, summary) == [] && LeafHashes([]) == 0
    ensures d == [] ==> Uint(d, 0, 1).Err?
  {
  }

  lemma RecordsFit(d: Bytes, p: nat)
    requires p < |d| && Records(d, p).Ok?
    ensures p + 24 <= |d| && p + 24 + 20 * CountAt(d, p) <= |d|
  {
  }

  lemma ShownCons(d: Bytes, p: nat, index: nat, summary: bool)
    requires p + 24 <= |d| && p + 24 + 20 * CountAt(d, p) <= |d|
    ensures var next := p + 24 + 20 * CountAt(d, p);
            && (Records(d, p).Ok? <==> Records(d, next).Ok?)
            && (Records(d, p).Ok? ==>
                  && Shown(Records(d, p).value, index, summary)
                     == [DumpRecord(index, p, d[p..p + 20], CountAt(d, p), 20 * CountAt(d, p),
                                    if summary then None else Some(HashesAt(d, p + 24, CountAt(d, p))))]
                        + Shown(Records(d, next).value, index + 1, summary)
                  && LeafHashes(Records(d, p).value) == CountAt(d, p) + LeafHashes(Records(d, next).value))
  {
    var next := p + 24 + 20 * CountAt(d, p);
    if Records(d, next).Ok? {
      assert Records(d, p).value[1..] == Records(d, next).value;
    }
  }

  // ---------------------------------------------------------------- the importer

  type HashMap = map<Bytes, seq<Bytes>>

  predicate Wants(wanted: Option<set<Bytes>>, root: Bytes) {
    wanted.None? || root in wanted.value
  }

  /** What the importer makes of the file from `p` on: it skips the hashes of unwanted roots without looking. */
  function ImportFrom(d: Bytes, p: nat, wanted: Option<set<Bytes>>): Result<HashMap>
    decreases |d| - p
  {
    if p >= |d| then Ok(map[])
    else if p + 24 > |d| then Err(Truncated)
    else
      var root, count := d[p..p + 20], CountAt(d, p);
      var next := p + 24 + 20 * count;
      if Wants(wanted, root) then
        if next > |d| then Err(Truncated)
        else
          var rest :- ImportFrom(d, next, wanted);
          Ok(map[root := HashesAt(d, p + 24, count)] + rest)
      else ImportFrom(d, next, wanted)
  }

  function ImportFile(d: Bytes, wanted: Option<set<Bytes>>): Result<HashMap> {
    if d == [] then Err(Truncated) else if d[0] != KNOWN2_MET_VERSION then Err(BadHeader) else ImportFrom(d, 1, wanted)
  }

  lemma JoinAssociates(a: HashMap, root: Bytes, hashes: seq<Bytes>, b: HashMap)
    ensures a[root := hashes] + b == a + (map[root := hashes] + b)
  {
  }

  lemma SliceOfSlice(d: Bytes, p: nat, n: nat, a: nat, b: nat)
    requires p + n <= |d| && a <= b <= n
    ensures d[p..p + n][a..b] == d[p + a..p + b]
  {
    var whole := d[p..p + n];
    assert forall i :: 0 <= i < n ==> whole[i] == d[p + i];
    assert forall i :: 0 <= i < b - a ==> whole[a..b][i] == d[p + a..p + b][i];
  }

  /** Splits a payload into its 20-byte hashes. */
  method SplitPayload(payload: Bytes, ghost d: Bytes, ghost p: nat, count: nat) returns (hashes: seq<Bytes>)
    requires p + 20 * count <= |d| && payload == d[p..p + 20 * count]
    ensures hashes == HashesAt(d, p, count)
  {
    hashes := [];
    for i := 0 to count
      invariant hashes == HashesAt(d, p, i)
    {
      SliceOfSlice(d, p, 20 * count, 20 * i, 20 * i + 20);
      hashes := hashes + [payload[20 * i..20 * i + 20]];
    }
  }

  /** What the importer makes of the file from `p` on, told by the record at `p`. */
  lemma ImportStep(d: Bytes, p: nat, wanted: Option<set<Bytes>>)
    ensures p >= |d| ==> ImportFrom(d, p, wanted) == Ok(map[])
    ensures p < |d| < p + 24 ==> ImportFrom(d, p, wanted).Err?
    ensures p + 24 <= |d| ==>
              var root, count := d[p..p + 20], CountAt(d, p);
              var next := p + 24 + 20 * count;
              var rest := ImportFrom(d, next, wanted);
              if !Wants(wanted, root) then ImportFrom(d, p, wanted) == rest
              else if next > |d| then ImportFrom(d, p, wanted).Err?
              else if rest.Err? then ImportFrom(d, p, wanted).Err?
              else ImportFrom(d, p, wanted) == Ok(map[root := HashesAt(d, p + 24, count)] + rest.value)
  {
  }

  /** Handles the record at the cursor; `None` at the end of the file. */
  method ImportOneRecord(f: FileReader, wanted: Option<set<Bytes>>, entries: HashMap)
    returns (r: Result<Option<HashMap>>)
    modifies f`cursor
    ensures match ImportFrom(f.data, old(f.cursor), wanted)
            case Err(_) =>
              && old(f.cursor) < |f.data|
              && (r.Ok? ==> r.value.Some? && old(f.cursor) < f.cursor && ImportFrom(f.data, f.cursor, wanted).Err?)
            case Ok(all) =>
              && r.Ok?
              && (r.value.None? <==> old(f.cursor) >= |f.data|)
              && (r.value.None? ==> f.cursor == old(f.cursor))
              && (r.value.Some? ==> var rest := ImportFrom(f.data, f.cursor, wanted);
                   && old(f.cursor) < f.cursor && rest.Ok? && entries + all == r.value.value + rest.value)
  {
    hide LittleEndian, ImportFrom, HashesAt, Wants;
    ghost var p := f.cursor;
    ImportStep(f.data, p, wanted);
    var rootRaw := f.ReadUpTo(20);
    if rootRaw == [] {
      return Ok(None);
    }
    if |rootRaw| != 20 {
      return Err(Truncated);
    }
    var countRaw := f.ReadUpTo(4);
    if |countRaw| != 4 {
      return Err(Truncated);
    }
    assert rootRaw == f.data[p..p + 20] && countRaw == f.data[p + 20..p + 24];
    var hashCount := LittleEndian(countRaw);
    var needed := hashCount * 20;
    if Wants(wanted, rootRaw) {
      var payload := f.ReadUpTo(needed);
      if |payload| != needed {
        return Err(Truncated);
      }
      var hashes := SplitPayload(payload, f.data, p + 24, hashCount);
      ghost var rest := ImportFrom(f.data, f.cursor, wanted);
      if rest.Ok? {
        JoinAssociates(entries, rootRaw, hashes, rest.value);
      }
      return Ok(Some(entries[rootRaw := hashes]));
    } else {
      f.SeekBy(needed);
      return Ok(Some(entries));
    }
  }

  /** Parses a known2 file into a map from root to hashes, keeping only the wanted roots if there are any. */
  method ParseKnown264(d: Bytes, wanted: Option<set<Bytes>>) returns (r: Result<HashMap>)
    ensures r.Ok? <==> ImportFile(d, wanted).Ok?
    ensures r.Ok? ==> r.value == ImportFile(d, wanted).value
  {
    hide ImportFrom;
    var f := new FileReader(d);
    var versionRaw := f.ReadUpTo(1);
    if |versionRaw| != 1 {
      return Err(Truncated);
    }
    if versionRaw[0] != KNOWN2_MET_VERSION {
      return Err(BadHeader);
    }
    var entries: HashMap := map[];
    assert map[] + ImportEntries(d, 1, wanted) == ImportEntries(d, 1, wanted);
    var atEnd := false;
    while !atEnd
      invariant ImportFile(d, wanted).Ok? <==> ImportFrom(d, f.cursor, wanted).Ok?
      invariant ImportFile(d, wanted).Ok? ==>
                  ImportFile(d, wanted).value == entries + ImportFrom(d, f.cursor, wanted).value
      invariant atEnd ==> f.cursor >= |d|
      decreases !atEnd, if f.cursor < |d| then |d| - f.cursor else 0
    {
      var step :- ImportOneRecord(f, wanted, entries);
      match step {
        case None => atEnd := true;
        case Some(next) => entries := next;
      }
    }
    ImportStep(d, f.cursor, wanted);
    return Ok(entries);
  }

  function ImportEntries(d: Bytes, p: nat, wanted: Option<set<Bytes>>): HashMap {
    if ImportFrom(d, p, wanted).Ok? then ImportFrom(d, p, wanted).value else map[]
  }

  // ---------------------------------------------------------------- the importer against the layout

  /** The map in which the last record of a root wins. */
  function LastWins(rs: seq<Record>): HashMap {
    if rs == [] then map[] else map[rs[0].root := rs[0].hashes] + LastWins(rs[1..])
  }

  /** The map has the roots of the records, each with the hashes of its last one. */
  lemma LastWinsMeans(rs: seq<Record>)
    ensures forall k :: k in LastWins(rs) <==> exists i :: 0 <= i < |rs| && rs[i].root == k
    ensures forall i :: 0 <= i < |rs| && (forall j :: i < j < |rs| ==> rs[j].root != rs[i].root) ==>
              rs[i].root in LastWins(rs) && LastWins(rs)[rs[i].root] == rs[i].hashes
  {
    hide LastWins;
    forall k
      ensures k in LastWins(rs) <==> exists i :: 0 <= i < |rs| && rs[i].root == k
    {
      LastWinsKeys(rs, k);
    }
    forall i | 0 <= i < |rs| && forall j :: i < j < |rs| ==> rs[j].root != rs[i].root
      ensures rs[i].root in LastWins(rs) && LastWins(rs)[rs[i].root] == rs[i].hashes
    {
      LastOneWins(rs, i);
    }
  }

  lemma {:induction false} LastWinsKeys(rs: seq<Record>, k: Bytes)
    ensures k in LastWins(rs) <==> exists i :: 0 <= i < |rs| && rs[i].root == k
  {
    if rs != [] {
      var rest := rs[1..];
      LastWinsKeys(rest, k);
      assert rs == [rs[0]] + rest;
      if exists i :: 0 <= i < |rest| && rest[i].root == k {
        var i :| 0 <= i < |rest| && rest[i].root == k;
        assert rs[i + 1].root == k;
      }
    }
  }

  lemma {:induction false} LastOneWins(rs: seq<Record>, i: nat)
    requires i < |rs| && forall j :: i < j < |rs| ==> rs[j].root != rs[i].root
    ensures rs[i].root in LastWins(rs) && LastWins(rs)[rs[i].root] == rs[i].hashes
  {
    var rest := rs[1..];
    if i > 0 {
      assert forall j :: i - 1 < j < |rest| ==> rest[j] == rs[j + 1];
      LastOneWins(rest, i - 1);
    } else {
      LastWinsKeys(rest, rs[0].root);
      assert forall j :: 0 <= j < |rest| ==> rest[j] == rs[j + 1];
    }
  }

  function Restrict(m: HashMap, wanted: Option<set<Bytes>>): HashMap {
    map k | k in m && Wants(wanted, k) :: m[k]
  }

  lemma RestrictJoin(root: Bytes, hashes: seq<Bytes>, m: HashMap, wanted: Option<set<Bytes>>)
    ensures Restrict(map[root := hashes] + m, wanted)
         == if Wants(wanted, root) then map[root := hashes] + Restrict(m, wanted) else Restrict(m, wanted)
  {
  }

  /**
   From `p` on there are whole records, of any root, and then a last one whose header is there, whose root is not
   wanted and whose hashes end before they should.
   */
  predicate CutShort(d: Bytes, p: nat, wanted: Option<set<Bytes>>)
    decreases |d| - p
  {
    && p + 24 <= |d|
    && var next := p + 24 + 20 * CountAt(d, p);
    if next > |d| then !Wants(wanted, d[p..p + 20]) else CutShort(d, next, wanted)
  }

  /** The whole records from `p` on, up to the end of the file or to where it is cut. */
  function WholeRecords(d: Bytes, p: nat): seq<Record>
    decreases |d| - p
  {
    if p + 24 > |d| || p + 24 + 20 * CountAt(d, p) > |d| then []
    else
      var count := CountAt(d, p);
      [Record(p, d[p..p + 20], HashesAt(d, p + 24, count))] + WholeRecords(d, p + 24 + 20 * count)
  }

  /** A well-formed rest of a file is all of its whole records. */
  lemma {:induction false} WholeIsLayout(d: Bytes, p: nat)
    requires p <= |d| && Records(d, p).Ok?
    ensures WholeRecords(d, p) == Records(d, p).value
    decreases |d| - p
  {
    if p < |d| {
      WholeIsLayout(d, p + 24 + 20 * CountAt(d, p));
    }
  }

  /**
   The importer lets through the well-formed rests of a file and those cut short in an unwanted record, and keeps
   the wanted ones among the whole records.
   */
  lemma {:induction false} ImportAcceptsIff(d: Bytes, p: nat, wanted: Option<set<Bytes>>)
    requires p <= |d|
    ensures ImportFrom(d, p, wanted).Ok? <==> Records(d, p).Ok? || CutShort(d, p, wanted)
    ensures !(Records(d, p).Ok? && CutShort(d, p, wanted))
    ensures ImportFrom(d, p, wanted).Ok? ==>
              ImportFrom(d, p, wanted).value == Restrict(LastWins(WholeRecords(d, p)), wanted)
    decreases |d| - p
  {
    if p + 24 <= |d| {
      var count := CountAt(d, p);
      var next := p + 24 + 20 * count;
      if next <= |d| {
        ImportAcceptsIff(d, next, wanted);
        assert WholeRecords(d, p)[1..] == WholeRecords(d, next);
        RestrictJoin(d[p..p + 20], HashesAt(d, p + 24, count), LastWins(WholeRecords(d, next)), wanted);
      } else {
        ImportStep(d, next, wanted);
      }
    }
  }

  lemma {:induction false} UnfilteredIsNotCut(d: Bytes, p: nat)
    ensures !CutShort(d, p, None)
    decreases |d| - p
  {
    if p + 24 <= |d| {
      UnfilteredIsNotCut(d, p + 24 + 20 * CountAt(d, p));
    }
  }

  /** Without a filter the importer accepts exactly the layout's files, and the last record of each root wins. */
  lemma UnfilteredImportIsLayout(d: Bytes)
    ensures ImportFile(d, None).Ok? <==> Layout(d).Ok?
    ensures Layout(d).Ok? ==> ImportFile(d, None).value == LastWins(Layout(d).value)
  {
    if d != [] && d[0] == KNOWN2_MET_VERSION {
      ImportAcceptsIff(d, 1, None);
      UnfilteredIsNotCut(d, 1);
      if Layout(d).Ok? {
        WholeIsLayout(d, 1);
      }
    }
  }

  /** The file is cut short in its last record, whose root is not wanted. */
  predicate FileCutShort(d: Bytes, wanted: set<Bytes>) {
    d != [] && d[0] == KNOWN2_MET_VERSION && CutShort(d, 1, Some(wanted))
  }

  /**
   With a filter the importer accepts exactly the well-formed files, of which it gives the full map restricted to
   the wanted roots, and the files cut short in a last, unwanted record, of which it gives the same for the whole
   records before. No file is both.
   */
  lemma FilteredImportIsRestriction(d: Bytes, wanted: set<Bytes>)
    ensures ImportFile(d, Some(wanted)).Ok? <==> Layout(d).Ok? || FileCutShort(d, wanted)
    ensures !(Layout(d).Ok? && FileCutShort(d, wanted))
    ensures Layout(d).Ok? ==>
              && ImportFile(d, None).Ok?
              && ImportFile(d, Some(wanted)).value == Restrict(ImportFile(d, None).value, Some(wanted))
    ensures FileCutShort(d, wanted) ==>
              ImportFile(d, Some(wanted)).value == Restrict(LastWins(WholeRecords(d, 1)), Some(wanted))
  {
    UnfilteredImportIsLayout(d);
    if d != [] && d[0] == KNOWN2_MET_VERSION {
      ImportAcceptsIff(d, 1, Some(wanted));
      if Layout(d).Ok? {
        WholeIsLayout(d, 1);
      }
    }
  }

  /** One record of one hash, with the hash missing: a filter that does not want its root lets it pass. */
  lemma TruncatedFileMayPass()
    ensures var d: Bytes := [KNOWN2_MET_VERSION] + seq(20, _ => 0) + [1, 0, 0, 0];
            Layout(d).Err? && FileCutShort(d, {}) && ImportFile(d, Some({})) == Ok(map[])
  {
    var d: Bytes := [KNOWN2_MET_VERSION] + seq(20, _ => 0) + [1, 0, 0, 0];
    assert |d| == 25 && d[0] == KNOWN2_MET_VERSION;
    assert d[21..25] == [1, 0, 0, 0];
    CountIsOne();
    assert CountAt(d, 1) == 1;
    ImportStep(d, 45, Some({}));
  }

  lemma CountIsOne()
    ensures LittleEndian([1, 0, 0, 0]) == 1
  {
    assert [1, 0, 0, 0][1..] == [0, 0, 0] && [0, 0, 0][1..] == [0, 0] && [0, 0][1..] == [0];
    assert LittleEndian([0][1..]) == 0;
  }
}
