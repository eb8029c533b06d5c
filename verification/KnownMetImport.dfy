/** The importer's parser for known.met: a reader over the whole file and a typed entry for each record. */
module KnownMetImport {
  import opened Outcomes
  import opened Hex
  import opened MetFormat

  const FT_FILENAME := 0x01
  const FT_FILESIZE := 0x02
  const FT_ULPRIORITY := 0x19
  const FT_AICH_HASH := 0x27
  const FT_AICHHASHSET := 0x35
  const FT_ATTRANSFERRED := 0x50
  const FT_ATREQUESTED := 0x51
  const FT_ATACCEPTED := 0x52
  const FT_ATTRANSFERREDHI := 0x54
  const LAST_REQUEST_TAG_NAME := "LastRequest"

  const PR_LOW := 0
  const PR_HIGH := 2
  const PR_VERYHIGH := 3
  const PR_VERYLOW := 4
  const PR_AUTO := 5

  /**
   The text decoders at hand: ASCII with replacement, the ANSI code page, UTF-8 strict and with replacement
   (both after a byte order mark), and the Base32 reading of an AICH root.
   */
  datatype Decoders = Decoders(
    ascii: Bytes -> string, ansi: Bytes -> string,
    strictUtf8: Bytes -> Option<string>, lenientUtf8: Bytes -> string, aichRoot: string -> Option<Bytes>)

  datatype Name = Id(id: nat) | Text(text: string)
  datatype Value = TextValue(text: string) | IntValue(n: nat) | BoolValue(b: bool) | BytesValue(bytes: Bytes)
  datatype Tag = Tag(name: Name, value: Value)

  datatype Entry = Entry(
    modifiedS: nat, ed2kHash: Bytes, md4: seq<Bytes>, name: Option<string>, size: Option<nat>,
    aichRoot: Option<Bytes>, aich: seq<Bytes>, uploadPriority: string, autoUploadPriority: bool,
    uploadedBytes: nat, uploadRequests: nat, uploadAccepts: nat, lastUploadRequestMs: nat)

  // ---------------------------------------------------------------- tags

  predicate HasBom(b: Bytes) {
    [0xEF, 0xBB, 0xBF] <= b
  }

  /** Only a text that starts with a byte order mark can fail to decode. */
  function DecodeString(b: Bytes, dec: Decoders): Option<string> {
    if HasBom(b) then dec.strictUtf8(b[3..]) else Some(dec.ansi(b))
  }

  function TextTag(name: Name, b: Bytes, dec: Decoders): Result<Tag> {
    match DecodeString(b, dec)
    case Some(s) => Ok(Tag(name, TextValue(s)))
    case None => Err(BadText)
  }

  function ReadName(d: Bytes, p: nat, special: bool, dec: Decoders): Read<Name> {
    if special then
      var (id, q) :- Uint(d, p, 1);
      Ok((Id(id), q))
    else
      var (n, q) :- Uint(d, p, 2);
      if n == 1 then
        var (id, r) :- Uint(d, q, 1);
        Ok((Id(id), r))
      else
        var (b, r) :- Take(d, q, n);
        Ok((Text(dec.ascii(b)), r))
  }

  function ReadValue(d: Bytes, p: nat, kind: nat, name: Name, dec: Decoders): Read<Tag> {
    if kind == TAGTYPE_STRING then
      var (b, q) :- Counted(d, p, 2);
      var tag :- TextTag(name, b, dec);
      Ok((tag, q))
    else if TAGTYPE_STR1 <= kind <= TAGTYPE_STR16 then
      var (b, q) :- Take(d, p, kind - TAGTYPE_STR1 + 1);
      var tag :- TextTag(name, b, dec);
      Ok((tag, q))
    else if kind == TAGTYPE_UINT32 then
      var (n, q) :- Uint(d, p, 4);
      Ok((Tag(name, IntValue(n)), q))
    else if kind == TAGTYPE_UINT64 then
      var (n, q) :- Uint(d, p, 8);
      Ok((Tag(name, IntValue(n)), q))
    else if kind == TAGTYPE_UINT16 then
      var (n, q) :- Uint(d, p, 2);
      Ok((Tag(name, IntValue(n)), q))
    else if kind == TAGTYPE_UINT8 then
      var (n, q) :- Uint(d, p, 1);
      Ok((Tag(name, IntValue(n)), q))
    else if kind == TAGTYPE_FLOAT32 then
      var (b, q) :- Take(d, p, 4);
      Ok((Tag(name, BytesValue(b)), q))
    else if kind == TAGTYPE_BOOL then
      var (n, q) :- Uint(d, p, 1);
      Ok((Tag(name, BoolValue(n != 0)), q))
    else if kind == TAGTYPE_BOOLARRAY then
      var (bits, q) :- Uint(d, p, 2);
      var (b, r) :- Take(d, q, bits / 8 + 1);
      Ok((Tag(name, BytesValue(b)), r))
    else if kind == TAGTYPE_BLOB then
      var (b, q) :- Counted(d, p, 4);
      Ok((Tag(name, BytesValue(b)), q))
    else Err(BadTagType)
  }

  function ReadTag(d: Bytes, p: nat, dec: Decoders): Read<Tag> {
    var (rawType, q) :- Uint(d, p, 1);
    var (name, r) :- ReadName(d, q, rawType >= 0x80, dec);
    ReadValue(d, r, rawType % 0x80, name, dec)
  }

  // ---------------------------------------------------------------- entries

  function FirstText(tags: seq<Tag>, name: Name): Option<string> {
    if tags == [] then None
    else if tags[0].name == name && tags[0].value.TextValue? then Some(tags[0].value.text)
    else FirstText(tags[1..], name)
  }

  /** A Boolean counts as an integer, as it does for `isinstance(value, int)`. */
  function FirstInt(tags: seq<Tag>, name: Name): Option<nat> {
    if tags == [] then None
    else if tags[0].name == name && tags[0].value.IntValue? then Some(tags[0].value.n)
    else if tags[0].name == name && tags[0].value.BoolValue? then Some(if tags[0].value.b then 1 else 0)
    else FirstInt(tags[1..], name)
  }

  function FirstBytes(tags: seq<Tag>, name: Name): Option<Bytes> {
    if tags == [] then None
    else if tags[0].name == name && tags[0].value.BytesValue? then Some(tags[0].value.bytes)
    else FirstBytes(tags[1..], name)
  }

  /** A blob of a root, a count and that many hashes; anything else raises. */
  function ParseAichBlob(blob: Bytes): Result<(Bytes, seq<Bytes>)> {
    if |blob| < 22 then Err(BadAichBlob)
    else
      var count := LittleEndian(blob[20..22]);
      if |blob| != 20 + 2 + 20 * count then Err(BadAichBlob)
      else
        var (hashes, _) :- Hashes(blob, 22, 20, count);
        Ok((blob[..20], hashes))
  }

  function ParseUploadPriority(value: Option<nat>): (string, bool) {
    if value == Some(PR_AUTO) then ("normal", true)
    else if value == Some(PR_VERYLOW) then ("verylow", false)
    else if value == Some(PR_LOW) then ("low", false)
    else if value == Some(PR_HIGH) then ("high", false)
    else if value == Some(PR_VERYHIGH) then ("release", false)
    else ("normal", false)
  }

  function BitOr(a: nat, b: nat): nat
    decreases a + b
  {
    if a == 0 then b else if b == 0 then a
    else 2 * BitOr(a / 2, b / 2) + if a % 2 == 1 || b % 2 == 1 then 1 else 0
  }

  function AichRootTag(value: Option<string>, dec: Decoders): Option<Bytes> {
    if value.None? || value.value == "" then None else dec.aichRoot(value.value)
  }

  /** The typed entry behind one record's fields and tags. */
  function MakeEntry(modifiedS: nat, hash: Bytes, md4: seq<Bytes>, tags: seq<Tag>, dec: Decoders): Result<Entry> {
    var blob := FirstBytes(tags, Id(FT_AICHHASHSET)).GetOr([]);
    var (blobRoot, aich) :-
      if blob == [] then Ok((None, []))
      else var (root, hashes) :- ParseAichBlob(blob); Ok((Some(root), hashes));
    var root := if blobRoot.Some? then blobRoot else AichRootTag(FirstText(tags, Id(FT_AICH_HASH)), dec);
    var priority := ParseUploadPriority(FirstInt(tags, Id(FT_ULPRIORITY)));
    var low := FirstInt(tags, Id(FT_ATTRANSFERRED)).GetOr(0);
    var high := FirstInt(tags, Id(FT_ATTRANSFERREDHI)).GetOr(0);
    Ok(Entry(
      modifiedS, hash, md4, FirstText(tags, Id(FT_FILENAME)), FirstInt(tags, Id(FT_FILESIZE)), root, aich,
      priority.0, priority.1, BitOr(high * 0x1_0000_0000, low),
      FirstInt(tags, Id(FT_ATREQUESTED)).GetOr(0), FirstInt(tags, Id(FT_ATACCEPTED)).GetOr(0),
      FirstInt(tags, Text(LAST_REQUEST_TAG_NAME)).GetOr(0) * 1000))
  }

  function ReadRecord(d: Bytes, p: nat, dec: Decoders): Read<Entry> {
    var (modifiedS, q) :- Uint(d, p, 4);
    var (hash, r) :- Take(d, q, 16);
    var (partCount, s) :- Uint(d, r, 2);
    var (md4, t) :- Hashes(d, s, 16, partCount);
    var (tagCount, u) :- Uint(d, t, 4);
    var (tags, v) :- Many((w: nat) => ReadTag(d, w, dec), u, tagCount);
    var entry :- MakeEntry(modifiedS, hash, md4, tags, dec);
    Ok((entry, v))
  }

  function Parse(d: Bytes, dec: Decoders): Result<seq<Entry>> {
    var (header, p) :- Uint(d, 0, 1);
    if header != MET_HEADER && header != MET_HEADER_I64TAGS then Err(BadHeader)
    else
      var (count, q) :- Uint(d, p, 4);
      var (entries, r) :- Many((w: nat) => ReadRecord(d, w, dec), q, count);
      if r != |d| then Err(TrailingBytes) else Ok(entries)
  }

  // ---------------------------------------------------------------- the reader

  /** The method read what the function reads at `p`, and the reader now stands where the function stops. */
  ghost predicate Did<T>(expected: Read<T>, r: Result<T>, pos: nat) {
    match expected
    case Ok((value, q)) => r == Ok(value) && pos == q
    case Err(_) => r.Err?
  }

  class BinaryReader {
    const data: Bytes
    var pos: nat

    constructor (data: Bytes)
      ensures this.data == data && pos == 0
    {
      this.data := data;
      pos := 0;
    }

    function Remaining(): int
      reads this
    {
      |data| - pos
    }

    method Read(count: nat) returns (r: Result<Bytes>)
      modifies this`pos
      ensures Did(Take(data, old(pos), count), r, pos)
      ensures r.Err? ==> pos == old(pos)
    {
      if pos + count > |data| {
        return Err(Truncated);
      }
      var chunk := data[pos..pos + count];
      pos := pos + count;
      return Ok(chunk);
    }

    method ReadUint(width: nat) returns (r: Result<nat>)
      modifies this`pos
      ensures Did(Uint(data, old(pos), width), r, pos)
    {
      var b :- Read(width);
      return Ok(LittleEndian(b));
    }

    method ReadTagName(special: bool, dec: Decoders) returns (r: Result<Name>)
      modifies this`pos
      ensures Did(ReadName(data, old(pos), special, dec), r, pos)
    {
      if special {
        var id :- ReadUint(1);
        return Ok(Id(id));
      }
      var nameLen :- ReadUint(2);
      if nameLen == 1 {
        var id :- ReadUint(1);
        return Ok(Id(id));
      }
      var b :- Read(nameLen);
      return Ok(Text(dec.ascii(b)));
    }

    method ReadTagValue(kind: nat, name: Name, dec: Decoders) returns (r: Result<Tag>)
      modifies this`pos
      ensures Did(ReadValue(data, old(pos), kind, name, dec), r, pos)
    {
      if kind == TAGTYPE_STRING {
        var n :- ReadUint(2);
        var b :- Read(n);
        return TextTag(name, b, dec);
      } else if TAGTYPE_STR1 <= kind <= TAGTYPE_STR16 {
        var b :- Read(kind - TAGTYPE_STR1 + 1);
        return TextTag(name, b, dec);
      } else if kind == TAGTYPE_UINT32 {
        var n :- ReadUint(4);
        return Ok(Tag(name, IntValue(n)));
      } else if kind == TAGTYPE_UINT64 {
        var n :- ReadUint(8);
        return Ok(Tag(name, IntValue(n)));
      } else if kind == TAGTYPE_UINT16 {
        var n :- ReadUint(2);
        return Ok(Tag(name, IntValue(n)));
      } else if kind == TAGTYPE_UINT8 {
        var n :- ReadUint(1);
        return Ok(Tag(name, IntValue(n)));
      } else if kind == TAGTYPE_FLOAT32 {
        var b :- Read(4);
        return Ok(Tag(name, BytesValue(b)));
      } else if kind == TAGTYPE_BOOL {
        var n :- ReadUint(1);
        return Ok(Tag(name, BoolValue(n != 0)));
      } else if kind == TAGTYPE_BOOLARRAY {
        var bitCount :- ReadUint(2);
        var b :- Read(bitCount / 8 + 1);
        return Ok(Tag(name, BytesValue(b)));
      } else if kind == TAGTYPE_BLOB {
        var n :- ReadUint(4);
        var b :- Read(n);
        return Ok(Tag(name, BytesValue(b)));
      }
      return Err(BadTagType);
    }

    method ReadOneTag(dec: Decoders) returns (r: Result<Tag>)
      modifies this`pos
      ensures Did(ReadTag(data, old(pos), dec), r, pos)
    {
      var tagType :- ReadUint(1);
      var name :- ReadTagName(tagType >= 0x80, dec);
      r := ReadTagValue(tagType % 0x80, name, dec);
    }

    method ReadHashes(width: nat, count: nat) returns (r: Result<seq<Bytes>>)
      modifies this`pos
      ensures Did(Hashes(data, old(pos), width, count), r, pos)
    {
      var hashes: seq<Bytes> := [];
      ghost var step := (q: nat) => Take(data, q, width);
      for i := 0 to count
        invariant Many(step, old(pos), i) == Ok((hashes, pos))
      {
        var hash := Read(width);
        if hash.Err? {
          ManyStaysBroken(step, old(pos), i + 1, count);
          return Err(hash.fault);
        }
        hashes := hashes + [hash.value];
      }
      return Ok(hashes);
    }

    method ReadTags(count: nat, dec: Decoders) returns (r: Result<seq<Tag>>)
      modifies this`pos
      ensures Did(Many((w: nat) => ReadTag(data, w, dec), old(pos), count), r, pos)
    {
      var tags: seq<Tag> := [];
      ghost var step := (w: nat) => ReadTag(data, w, dec);
      for i := 0 to count
        invariant Many(step, old(pos), i) == Ok((tags, pos))
      {
        var tag := ReadOneTag(dec);
        if tag.Err? {
          ManyStaysBroken(step, old(pos), i + 1, count);
          return Err(tag.fault);
        }
        tags := tags + [tag.value];
      }
      return Ok(tags);
    }

    method ReadKnownMetRecord(dec: Decoders) returns (r: Result<Entry>)
      modifies this`pos
      ensures Did(ReadRecord(data, old(pos), dec), r, pos)
    {
      var modifiedS :- ReadUint(4);
      var hash :- Read(16);
      var partCount :- ReadUint(2);
      var md4 :- ReadHashes(16, partCount);
      var tagCount :- ReadUint(4);
      var tags :- ReadTags(tagCount, dec);
      return MakeEntry(modifiedS, hash, md4, tags, dec);
    }
  }

  /** Parses a whole known.met file. */
  method ParseKnownMet(d: Bytes, dec: Decoders) returns (r: Result<seq<Entry>>)
    ensures r.Ok? <==> Parse(d, dec).Ok?
    ensures r.Ok? ==> r == Parse(d, dec)
  {
    hide ReadRecord, LittleEndian;
    var reader := new BinaryReader(d);
    var header :- reader.ReadUint(1);
    if header != MET_HEADER && header != MET_HEADER_I64TAGS {
      return Err(BadHeader);
    }
    var count :- reader.ReadUint(4);
    var entries: seq<Entry> := [];
    ghost var step := (w: nat) => ReadRecord(d, w, dec);
    ghost var start := reader.pos;
    for i := 0 to count
      invariant Many(step, start, i) == Ok((entries, reader.pos))
    {
      var entry := reader.ReadKnownMetRecord(dec);
      if entry.Err? {
        ManyStaysBroken(step, start, i + 1, count);
        return Err(entry.fault);
      }
      entries := entries + [entry.value];
    }
    if reader.Remaining() != 0 {
      return Err(TrailingBytes);
    }
    return Ok(entries);
  }
}
