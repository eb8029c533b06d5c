/** The dumper's parser for known.met: a file cursor and a raw record for each entry. */
module KnownMetDump {
  import opened Outcomes
  import opened Hex
  import opened MetFormat
  import opened FileAccess
  import opened KnownMetImport

  /** The decoded value of a dumped tag; a bit array keeps its bit count. */
  datatype DumpValue =
    | DumpText(text: string)
    | DumpInt(n: nat)
    | DumpBool(b: bool)
    | DumpBytes(bytes: Bytes)
    | DumpBits(bitCount: nat, bytes: Bytes)

  datatype DumpTag = DumpTag(name: Name, tagType: nat, value: DumpValue)

  datatype DumpRecord = DumpRecord(
    index: nat, offset: nat, modifiedUnix: nat, ed2kHash: Bytes, partHashCount: nat, partHashes: seq<Bytes>,
    tags: seq<DumpTag>)

  datatype Dump = Dump(version: nat, records: seq<DumpRecord>, recordCount: nat, trailingBytes: int)

  /** Every text decodes: what strict UTF-8 refuses is replaced. */
  function DumpString(b: Bytes, dec: Decoders): string {
    if HasBom(b) then dec.lenientUtf8(b[3..]) else dec.ansi(b)
  }

  function DumpName(d: Bytes, p: nat, special: bool, dec: Decoders): Read<Name> {
    if special then
      var (id, q) :- Uint(d, p, 1);
      Ok((Id(id), q))
    else
      var (n, q) :- Uint(d, p, 2);
      if n == 1 then
        var (id, r) :- Uint(d, q, 1);
        Ok((Id(id), r))
      else
        var (b, r) :- Take(d, q, n);
        Ok((Text(DumpString(b, dec)), r))
  }

  function DumpPayload(d: Bytes, p: nat, kind: nat, dec: Decoders): Read<DumpValue> {
    if kind == TAGTYPE_STRING then
      var (b, q) :- Counted(d, p, 2);
      Ok((DumpText(DumpString(b, dec)), q))
    else if TAGTYPE_STR1 <= kind <= TAGTYPE_STR16 then
      var (b, q) :- Take(d, p, kind - TAGTYPE_STR1 + 1);
      Ok((DumpText(DumpString(b, dec)), q))
    else if kind == TAGTYPE_UINT32 then
      var (n, q) :- Uint(d, p, 4);
      Ok((DumpInt(n), q))
    else if kind == TAGTYPE_UINT64 then
      var (n, q) :- Uint(d, p, 8);
      Ok((DumpInt(n), q))
    else if kind == TAGTYPE_UINT16 then
      var (n, q) :- Uint(d, p, 2);
      Ok((DumpInt(n), q))
    else if kind == TAGTYPE_UINT8 then
      var (n, q) :- Uint(d, p, 1);
      Ok((DumpInt(n), q))
    else if kind == TAGTYPE_FLOAT32 then
      var (b, q) :- Take(d, p, 4);
      Ok((DumpBytes(b), q))
    else if kind == TAGTYPE_BOOL then
      var (n, q) :- Uint(d, p, 1);
      Ok((DumpBool(n != 0), q))
    else if kind == TAGTYPE_BOOLARRAY then
      var (bits, q) :- Uint(d, p, 2);
      var (b, r) :- Take(d, q, bits / 8 + 1);
      Ok((DumpBits(bits, b), r))
    else if kind == TAGTYPE_BLOB then
      var (b, q) :- Counted(d, p, 4);
      Ok((DumpBytes(b), q))
    else Err(BadTagType)
  }

  function DumpOneTag(d: Bytes, p: nat, dec: Decoders): Read<DumpTag> {
    var (rawType, q) :- Uint(d, p, 1);
    var (name, r) :- DumpName(d, q, rawType >= 0x80, dec);
    var (value, s) :- DumpPayload(d, r, rawType % 0x80, dec);
    Ok((DumpTag(name, rawType % 0x80, value), s))
  }

  /** One record; its index is filled in by the caller. */
  function DumpOneRecord(d: Bytes, p: nat, dec: Decoders): Read<DumpRecord> {
    var (modifiedUnix, q) :- Uint(d, p, 4);
    var (hash, r) :- Take(d, q, 16);
    var (partCount, s) :- Uint(d, r, 2);
    var (hashes, t) :- Hashes(d, s, 16, partCount);
    var (tagCount, u) :- Uint(d, t, 4);
    var (tags, v) :- Many((w: nat) => DumpOneTag(d, w, dec), u, tagCount);
    Ok((DumpRecord(0, p, modifiedUnix, hash, partCount, hashes, tags), v))
  }

  function Indexed(records: seq<DumpRecord>): (r: seq<DumpRecord>)
    ensures |r| == |records|
    ensures forall i :: 0 <= i < |records| ==> r[i] == records[i].(index := i)
  {
    seq(|records|, i requires 0 <= i < |records| => records[i].(index := i))
  }

  function DumpFile(d: Bytes, dec: Decoders): Result<Dump> {
    var (version, p) :- Uint(d, 0, 1);
    if version != MET_HEADER && version != MET_HEADER_I64TAGS then Err(BadHeader)
    else
      var (count, q) :- Uint(d, p, 4);
      var (records, r) :- Many((w: nat) => DumpOneRecord(d, w, dec), q, count);
      Ok(Dump(version, Indexed(records), count, |d| - r))
  }

  // ---------------------------------------------------------------- the dumper at work

  method ReadTagName(f: FileReader, special: bool, dec: Decoders) returns (r: Result<Name>)
    requires f.cursor <= |f.data|
    modifies f`cursor
    ensures r.Ok? ==> f.cursor <= |f.data|
    ensures Did(DumpName(f.data, old(f.cursor), special, dec), r, f.cursor)
  {
    if special {
      var id :- f.ReadUint(1);
      return Ok(Id(id));
    }
    var nameLen :- f.ReadUint(2);
    if nameLen == 1 {
      var id :- f.ReadUint(1);
      return Ok(Id(id));
    }
    var b :- f.Read(nameLen);
    return Ok(Text(DumpString(b, dec)));
  }

  method ReadTagValue(f: FileReader, kind: nat, dec: Decoders) returns (r: Result<DumpValue>)
    requires f.cursor <= |f.data|
    modifies f`cursor
    ensures r.Ok? ==> f.cursor <= |f.data|
    ensures Did(DumpPayload(f.data, old(f.cursor), kind, dec), r, f.cursor)
  {
    if kind == TAGTYPE_STRING {
      var n :- f.ReadUint(2);
      var b :- f.Read(n);
      return Ok(DumpText(DumpString(b, dec)));
    } else if TAGTYPE_STR1 <= kind <= TAGTYPE_STR16 {
      var b :- f.Read(kind - TAGTYPE_STR1 + 1);
      return Ok(DumpText(DumpString(b, dec)));
    } else if kind == TAGTYPE_UINT32 {
      var n :- f.ReadUint(4);
      return Ok(DumpInt(n));
    } else if kind == TAGTYPE_UINT64 {
      var n :- f.ReadUint(8);
      return Ok(DumpInt(n));
    } else if kind == TAGTYPE_UINT16 {
      var n :- f.ReadUint(2);
      return Ok(DumpInt(n));
    } else if kind == TAGTYPE_UINT8 {
      var n :- f.ReadUint(1);
      return Ok(DumpInt(n));
    } else if kind == TAGTYPE_FLOAT32 {
      var b :- f.Read(4);
      return Ok(DumpBytes(b));
    } else if kind == TAGTYPE_BOOL {
      var n :- f.ReadUint(1);
      return Ok(DumpBool(n != 0));
    } else if kind == TAGTYPE_BOOLARRAY {
      var bitCount :- f.ReadUint(2);
      var b :- f.Read(bitCount / 8 + 1);
      return Ok(DumpBits(bitCount, b));
    } else if kind == TAGTYPE_BLOB {
      var n :- f.ReadUint(4);
      var b :- f.Read(n);
      return Ok(DumpBytes(b));
    }
    return Err(BadTagType);
  }

  method ReadTags(f: FileReader, count: nat, dec: Decoders) returns (r: Result<seq<DumpTag>>)
    requires f.cursor <= |f.data|
    modifies f`cursor
    ensures Did(Many((w: nat) => DumpOneTag(f.data, w, dec), old(f.cursor), count), r, f.cursor)
    ensures r.Ok? ==> f.cursor <= |f.data|
  {
    var tags: seq<DumpTag> := [];
    ghost var step := (w: nat) => DumpOneTag(f.data, w, dec);
    for i := 0 to count
      invariant Many(step, old(f.cursor), i) == Ok((tags, f.cursor)) && f.cursor <= |f.data|
    {
      var tag := ReadOneTag(f, dec);
      if tag.Err? {
        ManyStaysBroken(step, old(f.cursor), i + 1, count);
        return Err(tag.fault);
      }
      tags := tags + [tag.value];
    }
    return Ok(tags);
  }

  method ReadOneTag(f: FileReader, dec: Decoders) returns (r: Result<DumpTag>)
    requires f.cursor <= |f.data|
    modifies f`cursor
    ensures Did(DumpOneTag(f.data, old(f.cursor), dec), r, f.cursor)
    ensures r.Ok? ==> f.cursor <= |f.data|
  {
    hide DumpName, DumpPayload, LittleEndian;
    var rawType :- f.ReadUint(1);
    var name :- ReadTagName(f, rawType >= 0x80, dec);
    var value :- ReadTagValue(f, rawType % 0x80, dec);
    return Ok(DumpTag(name, rawType % 0x80, value));
  }

  method ReadHashes(f: FileReader, width: nat, count: nat) returns (r: Result<seq<Bytes>>)
    requires width > 0 && f.cursor <= |f.data|
    modifies f`cursor
    ensures Did(Hashes(f.data, old(f.cursor), width, count), r, f.cursor)
    ensures r.Ok? ==> f.cursor <= |f.data|
  {
    var hashes: seq<Bytes> := [];
    ghost var step := (q: nat) => Take(f.data, q, width);
    for i := 0 to count
      invariant Many(step, old(f.cursor), i) == Ok((hashes, f.cursor)) && f.cursor <= |f.data|
    {
      var hash := f.Read(width);
      if hash.Err? {
        ManyStaysBroken(step, old(f.cursor), i + 1, count);
        return Err(hash.fault);
      }
      hashes := hashes + [hash.value];
    }
    return Ok(hashes);
  }

  method ReadOneRecord(f: FileReader, dec: Decoders) returns (r: Result<DumpRecord>)
    requires f.cursor <= |f.data|
    modifies f`cursor
    ensures Did(DumpOneRecord(f.data, old(f.cursor), dec), r, f.cursor)
    ensures r.Ok? ==> f.cursor <= |f.data|
  {
    var offset := f.Tell();
    var modifiedUnix :- f.ReadUint(4);
    var hash :- f.Read(16);
    var partCount :- f.ReadUint(2);
    var hashes :- ReadHashes(f, 16, partCount);
    var tagCount :- f.ReadUint(4);
    var tags :- ReadTags(f, tagCount, dec);
    return Ok(DumpRecord(0, offset, modifiedUnix, hash, partCount, hashes, tags));
  }

  /** Dumps a known.met file with all its hashes. */
  method DumpKnownMet(d: Bytes, dec: Decoders) returns (r: Result<Dump>)
    ensures r.Ok? <==> DumpFile(d, dec).Ok?
    ensures r.Ok? ==> r == DumpFile(d, dec)
  {
    var f := new FileReader(d);
    var version :- f.ReadUint(1);
    if version != MET_HEADER && version != MET_HEADER_I64TAGS {
      return Err(BadHeader);
    }
    var recordCount :- f.ReadUint(4);
    var records :- ReadRecords(f, recordCount, dec);
    return Ok(Dump(version, records, recordCount, |d| - f.Tell()));
  }

  method ReadRecords(f: FileReader, count: nat, dec: Decoders) returns (r: Result<seq<DumpRecord>>)
    requires f.cursor <= |f.data|
    modifies f`cursor
    ensures var plain := Many((w: nat) => DumpOneRecord(f.data, w, dec), old(f.cursor), count);
            && (r.Ok? <==> plain.Ok?)
            && (r.Ok? ==> r.value == Indexed(plain.value.0) && f.cursor == plain.value.1)
  {
    hide DumpOneRecord;
    var records: seq<DumpRecord> := [];
    ghost var plain: seq<DumpRecord> := [];
    ghost var step := (w: nat) => DumpOneRecord(f.data, w, dec);
    for index := 0 to count
      invariant Many(step, old(f.cursor), index) == Ok((plain, f.cursor)) && f.cursor <= |f.data|
      invariant |plain| == index && records == Indexed(plain)
    {
      var record := ReadOneRecord(f, dec);
      if record.Err? {
        ManyStaysBroken(step, old(f.cursor), index + 1, count);
        return Err(record.fault);
      }
      records := records + [record.value.(index := index)];
      plain := plain + [record.value];
    }
    return Ok(records);
  }
}
