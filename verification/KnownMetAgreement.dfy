/** The importer and the dumper read known.met files alike; the importer only asks more of texts and AICH blobs. */
module KnownMetAgreement {
  import opened Outcomes
  import opened Hex
  import opened MetFormat
  import opened KnownMetImport
  import opened KnownMetDump

  // ---------------------------------------------------------------- what each parser makes of a raw tag

  function ImportedName(name: RawName, dec: Decoders): Name {
    match name
    case RawId(id) => Id(id)
    case RawText(b) => Text(dec.ascii(b))
  }

  function ImportedValue(raw: RawTag, dec: Decoders): Value {
    if IsString(raw.kind) then TextValue(DecodeString(raw.payload, dec).GetOr(""))
    else if raw.kind == TAGTYPE_BOOL then BoolValue(LittleEndian(raw.payload) != 0)
    else if raw.kind == TAGTYPE_FLOAT32 || raw.kind == TAGTYPE_BOOLARRAY || raw.kind == TAGTYPE_BLOB then
      BytesValue(raw.payload)
    else IntValue(LittleEndian(raw.payload))
  }

  function Imported(raw: RawTag, dec: Decoders): Tag {
    Tag(ImportedName(raw.name, dec), ImportedValue(raw, dec))
  }

  function ImportedAll(raws: seq<RawTag>, dec: Decoders): (tags: seq<Tag>)
    ensures |tags| == |raws| && forall i :: 0 <= i < |raws| ==> tags[i] == Imported(raws[i], dec)
  {
    seq(|raws|, i requires 0 <= i < |raws| => Imported(raws[i], dec))
  }

  function DumpedName(name: RawName, dec: Decoders): Name {
    match name
    case RawId(id) => Id(id)
    case RawText(b) => Text(DumpString(b, dec))
  }

  function DumpedValue(raw: RawTag, dec: Decoders): DumpValue {
    if IsString(raw.kind) then DumpText(DumpString(raw.payload, dec))
    else if raw.kind == TAGTYPE_BOOL then DumpBool(LittleEndian(raw.payload) != 0)
    else if raw.kind == TAGTYPE_FLOAT32 || raw.kind == TAGTYPE_BLOB then DumpBytes(raw.payload)
    else if raw.kind == TAGTYPE_BOOLARRAY then DumpBits(raw.bits, raw.payload)
    else DumpInt(LittleEndian(raw.payload))
  }

  function Dumped(raw: RawTag, dec: Decoders): DumpTag {
    DumpTag(DumpedName(raw.name, dec), raw.kind, DumpedValue(raw, dec))
  }

  function DumpedAll(raws: seq<RawTag>, dec: Decoders): (tags: seq<DumpTag>)
    ensures |tags| == |raws| && forall i :: 0 <= i < |raws| ==> tags[i] == Dumped(raws[i], dec)
  {
    seq(|raws|, i requires 0 <= i < |raws| => Dumped(raws[i], dec))
  }

  /** A text payload decodes in the importer's strict way. */
  predicate TextDecodes(raw: RawTag, dec: Decoders) {
    IsString(raw.kind) ==> DecodeString(raw.payload, dec).Some?
  }

  /** The AICH hashset blob, when there is a nonempty one, has the length its count asks for. */
  predicate AichBlobFits(raw: RawRecord, dec: Decoders) {
    var blob := FirstBytes(ImportedAll(raw.tags, dec), Id(FT_AICHHASHSET)).GetOr([]);
    blob == [] || (|blob| >= 22 && |blob| == 22 + 20 * LittleEndian(blob[20..22]))
  }

  /** What the importer asks of a record beyond its layout. */
  predicate IsStrict(raw: RawRecord, dec: Decoders) {
    (forall i :: 0 <= i < |raw.tags| ==> TextDecodes(raw.tags[i], dec)) && AichBlobFits(raw, dec)
  }

  // ---------------------------------------------------------------- tags

  lemma ImportReadsLayoutName(d: Bytes, p: nat, special: bool, dec: Decoders)
    ensures var raw, read := LayoutName(d, p, special), ReadName(d, p, special, dec);
            (read.Ok? <==> raw.Ok?)
            && (read.Ok? ==> read.value == (ImportedName(raw.value.0, dec), raw.value.1))
  {
    hide LittleEndian;
  }

  lemma ImportReadsLayoutPayload(d: Bytes, p: nat, kind: nat, name: RawName, dec: Decoders)
    ensures var raw, read := LayoutPayload(d, p, kind), ReadValue(d, p, kind, ImportedName(name, dec), dec);
            && (read.Ok? <==> raw.Ok? && (IsString(kind) ==> DecodeString(raw.value.0.1, dec).Some?))
            && (read.Ok? ==>
                  read.value == (Imported(RawTag(name, kind, raw.value.0.0, raw.value.0.1), dec), raw.value.1))
  {
    hide LittleEndian, DecodeString, Take;
  }

  /** The importer takes a tag exactly when the layout does and its text decodes. */
  lemma ImportReadsLayoutTag(d: Bytes, p: nat, dec: Decoders)
    ensures var raw, read := LayoutTag(d, p), ReadTag(d, p, dec);
            && (read.Ok? <==> raw.Ok? && TextDecodes(raw.value.0, dec))
            && (read.Ok? ==> read.value == (Imported(raw.value.0, dec), raw.value.1))
  {
    hide LayoutName, ReadName, LayoutPayload, ReadValue, ImportedName, ImportedValue, DecodeString;
    var rawType := Uint(d, p, 1);
    if rawType.Ok? {
      var (t, q) := rawType.value;
      ImportReadsLayoutName(d, q, t >= 0x80, dec);
      var name := LayoutName(d, q, t >= 0x80);
      if name.Ok? {
        ImportReadsLayoutPayload(d, name.value.1, t % 0x80, name.value.0, dec);
      }
    }
  }

  lemma DumpReadsLayoutName(d: Bytes, p: nat, special: bool, dec: Decoders)
    ensures var raw, read := LayoutName(d, p, special), DumpName(d, p, special, dec);
            (read.Ok? <==> raw.Ok?) && (read.Ok? ==> read.value == (DumpedName(raw.value.0, dec), raw.value.1))
  {
    hide LittleEndian, DumpString;
  }

  lemma DumpReadsLayoutPayload(d: Bytes, p: nat, kind: nat, name: RawName, dec: Decoders)
    ensures var raw, read := LayoutPayload(d, p, kind), DumpPayload(d, p, kind, dec);
            && (read.Ok? <==> raw.Ok?)
            && (read.Ok? ==>
                  read.value == (DumpedValue(RawTag(name, kind, raw.value.0.0, raw.value.0.1), dec), raw.value.1))
  {
    hide LittleEndian, DumpString, Take;
  }

  /** The dumper takes whatever the layout takes, and stops where it stops. */
  lemma DumpReadsLayoutTag(d: Bytes, p: nat, dec: Decoders)
    ensures var raw, read := LayoutTag(d, p), DumpOneTag(d, p, dec);
            && (read.Ok? <==> raw.Ok?)
            && (read.Ok? ==> read.value == (Dumped(raw.value.0, dec), raw.value.1))
  {
    hide LayoutName, DumpName, LayoutPayload, DumpPayload, DumpedName, DumpedValue;
    var rawType := Uint(d, p, 1);
    if rawType.Ok? {
      var (t, q) := rawType.value;
      DumpReadsLayoutName(d, q, t >= 0x80, dec);
      var name := LayoutName(d, q, t >= 0x80);
      if name.Ok? {
        DumpReadsLayoutPayload(d, name.value.1, t % 0x80, name.value.0, dec);
      }
    }
  }

  lemma ImportReadsLayoutTags(d: Bytes, p: nat, n: nat, dec: Decoders)
    ensures var raw := Many((w: nat) => LayoutTag(d, w), p, n);
            var read := Many((w: nat) => ReadTag(d, w, dec), p, n);
            && (read.Ok? <==> raw.Ok? && forall i :: 0 <= i < |raw.value.0| ==> TextDecodes(raw.value.0[i], dec))
            && (read.Ok? ==> read.value == (ImportedAll(raw.value.0, dec), raw.value.1))
  {
    hide LayoutTag, ReadTag, TextDecodes, Imported;
    var layout := (w: nat) => LayoutTag(d, w);
    var good := (raw: RawTag) => TextDecodes(raw, dec);
    var shown := (raw: RawTag) => Imported(raw, dec);
    var same := (tag: Tag) => tag;
    var step := (w: nat) => ReadTag(d, w, dec);
    forall q: nat
      ensures step(q).Ok? <==> layout(q).Ok? && good(layout(q).value.0)
      ensures step(q).Ok? ==> step(q).value == (shown(layout(q).value.0), layout(q).value.1)
    {
      ImportReadsLayoutTag(d, q, dec);
    }
    ManyRefines(layout, good, step, shown, same, p, n);
    var raw, read := Many(layout, p, n), Many(step, p, n);
    if read.Ok? {
      assert forall i :: 0 <= i < n ==> same(read.value.0[i]) == shown(raw.value.0[i]);
      assert read.value.0 == ImportedAll(raw.value.0, dec);
    }
    assert raw.Ok? ==>
             forall i :: 0 <= i < |raw.value.0| ==> (good(raw.value.0[i]) <==> TextDecodes(raw.value.0[i], dec));
  }

  lemma DumpReadsLayoutTags(d: Bytes, p: nat, n: nat, dec: Decoders)
    ensures var raw := Many((w: nat) => LayoutTag(d, w), p, n);
            var read := Many((w: nat) => DumpOneTag(d, w, dec), p, n);
            && (read.Ok? <==> raw.Ok?)
            && (read.Ok? ==> read.value == (DumpedAll(raw.value.0, dec), raw.value.1))
  {
    hide LayoutTag, DumpOneTag, Dumped;
    var layout := (w: nat) => LayoutTag(d, w);
    var good := (raw: RawTag) => true;
    var shown := (raw: RawTag) => Dumped(raw, dec);
    var view := (tag: DumpTag) => tag;
    var step := (w: nat) => DumpOneTag(d, w, dec);
    forall q: nat
      ensures step(q).Ok? <==> layout(q).Ok? && good(layout(q).value.0)
      ensures step(q).Ok? ==> step(q).value.1 == layout(q).value.1
                              && view(step(q).value.0) == shown(layout(q).value.0)
    {
      DumpReadsLayoutTag(d, q, dec);
    }
    ManyRefines(layout, good, step, shown, view, p, n);
    var raw, read := Many(layout, p, n), Many(step, p, n);
    if read.Ok? {
      assert forall i :: 0 <= i < n ==> view(read.value.0[i]) == shown(raw.value.0[i]);
      assert read.value.0 == DumpedAll(raw.value.0, dec);
    }
  }

  // ---------------------------------------------------------------- records

  /** The entry that the importer makes of a raw record. */
  function EntryOf(raw: RawRecord, dec: Decoders): Result<Entry> {
    MakeEntry(raw.modifiedS, raw.hash, raw.parts, ImportedAll(raw.tags, dec), dec)
  }

  /** The record that the dumper makes of a raw record, but for its offset. */
  function DumpRecordOf(raw: RawRecord, dec: Decoders): DumpRecord {
    DumpRecord(0, 0, raw.modifiedS, raw.hash, |raw.parts|, raw.parts, DumpedAll(raw.tags, dec))
  }

  lemma AichBlobParses(raw: RawRecord, dec: Decoders)
    ensures EntryOf(raw, dec).Ok? <==> AichBlobFits(raw, dec)
  {
    hide FirstBytes, FirstInt, FirstText, BitOr, AichRootTag, ParseUploadPriority, LittleEndian, ImportedAll;
    var blob := FirstBytes(ImportedAll(raw.tags, dec), Id(FT_AICHHASHSET)).GetOr([]);
    if |blob| >= 22 && |blob| == 22 + 20 * LittleEndian(blob[20..22]) {
      HashesFit(blob, 22, 20, LittleEndian(blob[20..22]));
    }
  }

  lemma {:induction false} HashesFit(d: Bytes, p: nat, width: nat, n: nat)
    requires p + width * n <= |d|
    ensures Hashes(d, p, width, n).Ok? && Hashes(d, p, width, n).value.1 == p + width * n
  {
    if n > 0 {
      assert width * n == width * (n - 1) + width;
      HashesFit(d, p, width, n - 1);
    }
  }

  /** Hashes of one width follow each other without a gap. */
  lemma {:induction false} HashesAre(d: Bytes, p: nat, width: nat, n: nat)
    requires Hashes(d, p, width, n).Ok?
    ensures Hashes(d, p, width, n).value.1 == p + width * n
    ensures var hashes := Hashes(d, p, width, n).value.0;
            |hashes| == n && forall i: nat :: i < n ==> Is(hashes[i], d, p + width * i, width)
  {
    if n > 0 {
      assert width * n == width * (n - 1) + width;
      HashesAre(d, p, width, n - 1);
    }
  }

  /** These are the `n` bytes at `p`. */
  predicate Is(b: Bytes, d: Bytes, p: nat, n: nat) {
    p + n <= |d| && b == d[p..p + n]
  }

  lemma ImportReadsLayoutRecord(d: Bytes, p: nat, dec: Decoders)
    ensures var raw, read := LayoutRecord(d, p), ReadRecord(d, p, dec);
            && (read.Ok? <==> raw.Ok? && IsStrict(raw.value.0, dec))
            && (read.Ok? ==> read.value.1 == raw.value.1 && EntryOf(raw.value.0, dec) == Ok(read.value.0))
  {
    hide Uint, Take, Hashes, Many, MakeEntry, AichBlobFits;
    var raw := LayoutRecord(d, p);
    var (_, q) := if Uint(d, p, 4).Ok? then Uint(d, p, 4).value else (0, 0);
    var (_, r) := if Take(d, q, 16).Ok? then Take(d, q, 16).value else ([], 0);
    var (partCount, s) := if Uint(d, r, 2).Ok? then Uint(d, r, 2).value else (0, 0);
    var (_, t) := if Hashes(d, s, 16, partCount).Ok? then Hashes(d, s, 16, partCount).value else ([], 0);
    var (tagCount, u) := if Uint(d, t, 4).Ok? then Uint(d, t, 4).value else (0, 0);
    ImportReadsLayoutTags(d, u, tagCount, dec);
    if raw.Ok? {
      AichBlobParses(raw.value.0, dec);
    }
  }

  lemma EntryKeeps(raw: RawRecord, dec: Decoders)
    requires EntryOf(raw, dec).Ok?
    ensures var entry := EntryOf(raw, dec).value;
            entry.modifiedS == raw.modifiedS && entry.ed2kHash == raw.hash && entry.md4 == raw.parts
  {
    hide FirstBytes, FirstInt, FirstText, BitOr, AichRootTag, ParseUploadPriority, LittleEndian, ImportedAll;
    hide ParseAichBlob;
  }

  lemma DumpReadsLayoutRecord(d: Bytes, p: nat, dec: Decoders)
    ensures var raw, read := LayoutRecord(d, p), DumpOneRecord(d, p, dec);
            && (read.Ok? <==> raw.Ok?)
            && (read.Ok? ==>
                  && read.value.1 == raw.value.1 && read.value.0.offset == p
                  && read.value.0.(offset := 0) == DumpRecordOf(raw.value.0, dec))
  {
    hide Uint, Take, Hashes, Many;
    var (_, q) := if Uint(d, p, 4).Ok? then Uint(d, p, 4).value else (0, 0);
    var (_, r) := if Take(d, q, 16).Ok? then Take(d, q, 16).value else ([], 0);
    var (partCount, s) := if Uint(d, r, 2).Ok? then Uint(d, r, 2).value else (0, 0);
    var (_, t) := if Hashes(d, s, 16, partCount).Ok? then Hashes(d, s, 16, partCount).value else ([], 0);
    var (tagCount, u) := if Uint(d, t, 4).Ok? then Uint(d, t, 4).value else (0, 0);
    DumpReadsLayoutTags(d, u, tagCount, dec);
    if Hashes(d, s, 16, partCount).Ok? {
      HashesAre(d, s, 16, partCount);
    }
  }

  lemma ImportReadsLayoutRecords(d: Bytes, p: nat, n: nat, dec: Decoders)
    ensures var raw := Many((w: nat) => LayoutRecord(d, w), p, n);
            var read := Many((w: nat) => ReadRecord(d, w, dec), p, n);
            && (read.Ok? <==> raw.Ok? && forall i :: 0 <= i < |raw.value.0| ==> IsStrict(raw.value.0[i], dec))
            && (read.Ok? ==>
                  && read.value.1 == raw.value.1 && |read.value.0| == |raw.value.0| == n
                  && forall i :: 0 <= i < n ==> EntryOf(raw.value.0[i], dec) == Ok(read.value.0[i]))
  {
    hide LayoutRecord, ReadRecord, IsStrict, EntryOf;
    var layout := (w: nat) => LayoutRecord(d, w);
    var good := (raw: RawRecord) => IsStrict(raw, dec);
    var step := (w: nat) => ReadRecord(d, w, dec);
    var shown := (raw: RawRecord) => EntryOf(raw, dec);
    var view := (entry: Entry) => Ok(entry);
    forall q: nat
      ensures step(q).Ok? <==> layout(q).Ok? && good(layout(q).value.0)
      ensures step(q).Ok? ==> step(q).value.1 == layout(q).value.1
                              && view(step(q).value.0) == shown(layout(q).value.0)
    {
      ImportReadsLayoutRecord(d, q, dec);
    }
    ManyRefines(layout, good, step, shown, view, p, n);
    var raw, read := Many(layout, p, n), Many(step, p, n);
    assert raw.Ok? ==> forall i :: 0 <= i < |raw.value.0| ==> (good(raw.value.0[i]) <==> IsStrict(raw.value.0[i], dec));
    assert read.Ok? ==> forall i :: 0 <= i < n ==> view(read.value.0[i]) == shown(raw.value.0[i]);
  }

  lemma DumpReadsLayoutRecords(d: Bytes, p: nat, n: nat, dec: Decoders)
    ensures var raw := Many((w: nat) => LayoutRecord(d, w), p, n);
            var read := Many((w: nat) => DumpOneRecord(d, w, dec), p, n);
            && (read.Ok? <==> raw.Ok?)
            && (read.Ok? ==>
                  && read.value.1 == raw.value.1 && |read.value.0| == |raw.value.0| == n
                  && forall i :: 0 <= i < n ==>
                       read.value.0[i].(offset := 0) == DumpRecordOf(raw.value.0[i], dec))
  {
    hide LayoutRecord, DumpOneRecord, DumpRecordOf;
    var layout := (w: nat) => LayoutRecord(d, w);
    var good := (raw: RawRecord) => true;
    var step := (w: nat) => DumpOneRecord(d, w, dec);
    var shown := (raw: RawRecord) => DumpRecordOf(raw, dec);
    var view := (record: DumpRecord) => record.(offset := 0);
    forall q: nat
      ensures step(q).Ok? <==> layout(q).Ok? && good(layout(q).value.0)
      ensures step(q).Ok? ==> step(q).value.1 == layout(q).value.1
                              && view(step(q).value.0) == shown(layout(q).value.0)
    {
      DumpReadsLayoutRecord(d, q, dec);
    }
    ManyRefines(layout, good, step, shown, view, p, n);
    var raw, read := Many(layout, p, n), Many(step, p, n);
    assert read.Ok? ==> forall i :: 0 <= i < n ==> view(read.value.0[i]) == shown(raw.value.0[i]);
  }

  // ---------------------------------------------------------------- files

  /**
   The importer accepts a file exactly when the dumper accepts it without trailing bytes and every record has
   decodable texts and a fitting AICH blob.
   */
  lemma ImporterAcceptsIff(d: Bytes, dec: Decoders)
    ensures Parse(d, dec).Ok? <==>
            && DumpFile(d, dec).Ok? && DumpFile(d, dec).value.trailingBytes == 0 && LayoutKnownMet(d).Ok?
            && forall i :: 0 <= i < |LayoutKnownMet(d).value.0| ==> IsStrict(LayoutKnownMet(d).value.0[i], dec)
  {
    hide ReadRecord, DumpOneRecord, LayoutRecord, IsStrict, Uint, Many;
    var (header, p) := if Uint(d, 0, 1).Ok? then Uint(d, 0, 1).value else (0, 0);
    var (count, q) := if Uint(d, p, 4).Ok? then Uint(d, p, 4).value else (0, 0);
    ImportReadsLayoutRecords(d, q, count, dec);
    DumpReadsLayoutRecords(d, q, count, dec);
  }

  /** On every file the importer accepts, the dumper reports the same records and nothing left over. */
  lemma ParsersAgree(d: Bytes, dec: Decoders)
    requires Parse(d, dec).Ok?
    ensures var entries, dump := Parse(d, dec).value, DumpFile(d, dec);
            && dump.Ok? && dump.value.trailingBytes == 0
            && dump.value.recordCount == |dump.value.records| == |entries|
            && forall i :: 0 <= i < |entries| ==>
                 && dump.value.records[i].index == i
                 && dump.value.records[i].modifiedUnix == entries[i].modifiedS
                 && dump.value.records[i].ed2kHash == entries[i].ed2kHash
                 && dump.value.records[i].partHashes == entries[i].md4
  {
    hide ReadRecord, DumpOneRecord, LayoutRecord, IsStrict, Uint, Many;
    var (header, p) := Uint(d, 0, 1).value;
    var (count, q) := Uint(d, p, 4).value;
    ImportReadsLayoutRecords(d, q, count, dec);
    DumpReadsLayoutRecords(d, q, count, dec);
    var imported := Many((w: nat) => ReadRecord(d, w, dec), q, count).value.0;
    var dumped := Many((w: nat) => DumpOneRecord(d, w, dec), q, count).value.0;
    var raws := LayoutKnownMet(d).value.0;
    forall i | 0 <= i < count
      ensures dumped[i].modifiedUnix == imported[i].modifiedS && dumped[i].ed2kHash == imported[i].ed2kHash
      ensures dumped[i].partHashes == imported[i].md4
    {
      EntryKeeps(raws[i], dec);
      assert dumped[i].(offset := 0) == DumpRecordOf(raws[i], dec);
    }
  }
}
