/** What the layout of known.met takes from the bytes, and which tag each field of an imported entry is from. */
module KnownMetMeaning {
  import opened Outcomes
  import opened Hex
  import opened MetFormat
  import opened KnownMetImport
  import opened KnownMetDump
  import opened KnownMetAgreement

  // ---------------------------------------------------------------- tags

  /** The name bytes of a tag, from `p` to `q`: one byte, a counted byte that is an id, or counted bytes of a text. */
  ghost predicate NameBytes(d: Bytes, p: nat, special: bool, name: RawName, q: nat) {
    if special then p + 1 <= |d| && name == RawId(d[p]) && q == p + 1
    else
      && p + 2 <= |d|
      && if TwoBytes(d, p) == 1 then p + 3 <= |d| && name == RawId(d[p + 2]) && q == p + 3
         else q == p + 2 + TwoBytes(d, p) && q <= |d| && name == RawText(d[p + 2..q])
  }

  lemma LayoutNameIs(d: Bytes, p: nat, special: bool)
    ensures LayoutName(d, p, special).Ok? ==>
              NameBytes(d, p, special, LayoutName(d, p, special).value.0, LayoutName(d, p, special).value.1)
  {
    hide Uint;
    UintIs(d, p);
    UintIs(d, p + 2);
  }

  /** The payload bytes of a tag, from `p` to `q`, by its kind: of fixed width, or behind a count of bytes. */
  ghost predicate PayloadBytes(d: Bytes, p: nat, kind: nat, bits: nat, payload: Bytes, q: nat) {
    && q <= |d|
    && if kind == 0x02 then p + 2 <= |d| && q == p + 2 + TwoBytes(d, p) && payload == d[p + 2..q]
       else if kind == 0x03 || kind == 0x04 then q == p + 4 && payload == d[p..q]
       else if kind == 0x05 || kind == 0x09 then q == p + 1 && payload == d[p..q]
       else if kind == 0x06 then
         p + 2 <= |d| && bits == TwoBytes(d, p) && q == p + 3 + bits / 8 && payload == d[p + 2..q]
       else if kind == 0x07 then p + 4 <= |d| && q == p + 4 + FourBytes(d, p) && payload == d[p + 4..q]
       else if kind == 0x08 then q == p + 2 && payload == d[p..q]
       else if kind == 0x0B then q == p + 8 && payload == d[p..q]
       else 0x11 <= kind <= 0x20 && q == p + kind - 0x10 && payload == d[p..q]
  }

  lemma LayoutPayloadIs(d: Bytes, p: nat, kind: nat)
    ensures LayoutPayload(d, p, kind).Ok? ==>
              var ((bits, payload), q) := LayoutPayload(d, p, kind).value;
              PayloadBytes(d, p, kind, bits, payload, q)
  {
    hide Uint;
    UintIs(d, p);
  }

  /** A tag of the layout lies at `p`: a type byte whose top bit tells a one-byte name, the name, and the payload. */
  ghost predicate TagBytes(d: Bytes, p: nat, raw: RawTag, q: nat) {
    && p < |d| && raw.kind == d[p] % 128
    && exists r: nat :: NameBytes(d, p + 1, d[p] >= 128, raw.name, r)
                        && PayloadBytes(d, r, raw.kind, raw.bits, raw.payload, q)
  }

  lemma LayoutTagIs(d: Bytes, p: nat)
    ensures LayoutTag(d, p).Ok? ==> TagBytes(d, p, LayoutTag(d, p).value.0, LayoutTag(d, p).value.1)
  {
    hide Uint, LayoutName, LayoutPayload, NameBytes, PayloadBytes;
    UintIs(d, p);
    if p < |d| {
      LayoutNameIs(d, p + 1, d[p] >= 128);
      var name := LayoutName(d, p + 1, d[p] >= 128);
      if name.Ok? {
        LayoutPayloadIs(d, name.value.1, d[p] % 128);
      }
    }
  }

  // ---------------------------------------------------------------- records

  /** Where counted items start and end: item `i` lies between `at[i]` and `at[i + 1]`. */
  lemma {:induction false} ManyAt<T>(step: nat -> Read<T>, p: nat, n: nat) returns (at: seq<nat>)
    requires Many(step, p, n).Ok?
    ensures |Many(step, p, n).value.0| == n && |at| == n + 1
    ensures at[0] == p && at[n] == Many(step, p, n).value.1
    ensures forall i :: 0 <= i < n ==> step(at[i]) == Ok((Many(step, p, n).value.0[i], at[i + 1]))
  {
    if n == 0 {
      at := [p];
    } else {
      var before := ManyAt(step, p, n - 1);
      at := before + [Many(step, p, n).value.1];
      var items := Many(step, p, n).value.0;
      assert items == Many(step, p, n - 1).value.0 + [step(before[n - 1]).value.0];
      forall i | 0 <= i < n
        ensures step(at[i]) == Ok((items[i], at[i + 1]))
      {
        assert at[i] == before[i];
      }
    }
  }

  /** The tags lie one after the other from `p` to `q`. */
  ghost predicate TagsTile(d: Bytes, p: nat, tags: seq<RawTag>, q: nat, at: seq<nat>) {
    && |at| == |tags| + 1 && at[0] == p && at[|tags|] == q
    && forall i :: 0 <= i < |tags| ==> TagBytes(d, at[i], tags[i], at[i + 1])
  }

  /**
   A record of the layout lies at `p`: the time in four bytes, the file hash in sixteen, a count of two bytes and that
   many part hashes of sixteen, a count of four bytes and that many tags.
   */
  ghost predicate RecordBytes(d: Bytes, p: nat, raw: RawRecord, q: nat) {
    && p + 22 + 16 * |raw.parts| + 4 <= |d|
    && raw.modifiedS == FourBytes(d, p) && raw.hash == d[p + 4..p + 20] && |raw.parts| == TwoBytes(d, p + 20)
    && (forall i: nat :: i < |raw.parts| ==> Is(raw.parts[i], d, p + 22 + 16 * i, 16))
    && |raw.tags| == FourBytes(d, p + 22 + 16 * |raw.parts|)
    && exists at: seq<nat>, t :: TagsTile(d, t, raw.tags, q, at) && t == p + 26 + 16 * |raw.parts|
  }

  lemma LayoutTagsTile(d: Bytes, p: nat, n: nat) returns (at: seq<nat>)
    requires Many((w: nat) => LayoutTag(d, w), p, n).Ok?
    ensures var (tags, q) := Many((w: nat) => LayoutTag(d, w), p, n).value;
            |tags| == n && TagsTile(d, p, tags, q, at)
  {
    hide LayoutTag, TagBytes;
    var step := (w: nat) => LayoutTag(d, w);
    at := ManyAt(step, p, n);
    var tags := Many(step, p, n).value.0;
    forall i | 0 <= i < n
      ensures TagBytes(d, at[i], tags[i], at[i + 1])
    {
      assert step(at[i]) == LayoutTag(d, at[i]);
      LayoutTagIs(d, at[i]);
    }
  }

  lemma LayoutRecordIs(d: Bytes, p: nat)
    ensures LayoutRecord(d, p).Ok? ==> RecordBytes(d, p, LayoutRecord(d, p).value.0, LayoutRecord(d, p).value.1)
  {
    hide Uint, Hashes, Many, TagsTile, Is;
    UintIs(d, p);
    UintIs(d, p + 20);
    if p + 22 <= |d| {
      var parts := Hashes(d, p + 22, 16, TwoBytes(d, p + 20));
      if parts.Ok? {
        HashesAre(d, p + 22, 16, TwoBytes(d, p + 20));
        var t := p + 22 + 16 * TwoBytes(d, p + 20);
        UintIs(d, t);
        if t + 4 <= |d| && Many((w: nat) => LayoutTag(d, w), t + 4, FourBytes(d, t)).Ok? {
          var at := LayoutTagsTile(d, t + 4, FourBytes(d, t));
        }
      }
    }
  }

  // ---------------------------------------------------------------- the fields of an entry

  predicate IsIntegerKind(kind: nat) {
    kind == 0x03 || kind == 0x05 || kind == 0x08 || kind == 0x09 || kind == 0x0B
  }

  predicate IsTextKind(kind: nat) {
    kind == 0x02 || 0x11 <= kind <= 0x20
  }

  predicate IsBlobKind(kind: nat) {
    kind == 0x04 || kind == 0x06 || kind == 0x07
  }

  /** The kinds that the layout knows are these. */
  ghost predicate KnownKinds(tags: seq<RawTag>) {
    forall j :: 0 <= j < |tags| ==>
      IsIntegerKind(tags[j].kind) || IsTextKind(tags[j].kind) || IsBlobKind(tags[j].kind)
  }

  lemma TilingTagsAreKnown(d: Bytes, p: nat, tags: seq<RawTag>, q: nat, at: seq<nat>)
    requires TagsTile(d, p, tags, q, at)
    ensures KnownKinds(tags)
  {
    hide NameBytes;
    forall j | 0 <= j < |tags|
      ensures IsIntegerKind(tags[j].kind) || IsTextKind(tags[j].kind) || IsBlobKind(tags[j].kind)
    {
      assert TagBytes(d, at[j], tags[j], at[j + 1]);
    }
  }

  /** The tag bears the number, or the text that its bytes spell in ASCII. */
  predicate Bears(tag: RawTag, name: Name, dec: Decoders) {
    match name
    case Id(id) => tag.name == RawId(id)
    case Text(text) => tag.name.RawText? && dec.ascii(tag.name.bytes) == text
  }

  /** A Boolean is nought or one. */
  function IntegerIn(tag: RawTag): nat {
    if tag.kind == 0x05 then (if LittleEndian(tag.payload) != 0 then 1 else 0) else LittleEndian(tag.payload)
  }

  /** Tag number `k` is the first of an integer kind that bears the name. */
  predicate FirstInteger(tags: seq<RawTag>, name: Name, dec: Decoders, k: nat) {
    && k < |tags| && Bears(tags[k], name, dec) && IsIntegerKind(tags[k].kind)
    && forall j :: 0 <= j < k ==> !(Bears(tags[j], name, dec) && IsIntegerKind(tags[j].kind))
  }

  /** The value of the first integer tag of that name, and None when there is no such tag. */
  ghost predicate IntegerOf(tags: seq<RawTag>, name: Name, dec: Decoders, value: Option<nat>) {
    match value
    case Some(n) => exists k: nat :: FirstInteger(tags, name, dec, k) && n == IntegerIn(tags[k])
    case None => forall j :: 0 <= j < |tags| ==> !(Bears(tags[j], name, dec) && IsIntegerKind(tags[j].kind))
  }

  predicate StartsWithMark(b: Bytes) {
    |b| >= 3 && b[0] == 0xEF && b[1] == 0xBB && b[2] == 0xBF
  }

  /** A text behind a byte order mark is strict UTF-8, and any other is in the ANSI code page. */
  predicate Spells(b: Bytes, s: string, dec: Decoders) {
    if StartsWithMark(b) then dec.strictUtf8(b[3..]) == Some(s) else dec.ansi(b) == s
  }

  predicate FirstString(tags: seq<RawTag>, name: Name, dec: Decoders, k: nat) {
    && k < |tags| && Bears(tags[k], name, dec) && IsTextKind(tags[k].kind)
    && forall j :: 0 <= j < k ==> !(Bears(tags[j], name, dec) && IsTextKind(tags[j].kind))
  }

  ghost predicate TextOf(tags: seq<RawTag>, name: Name, dec: Decoders, value: Option<string>) {
    match value
    case Some(s) => exists k: nat :: FirstString(tags, name, dec, k) && Spells(tags[k].payload, s, dec)
    case None => forall j :: 0 <= j < |tags| ==> !(Bears(tags[j], name, dec) && IsTextKind(tags[j].kind))
  }

  predicate FirstBlob(tags: seq<RawTag>, name: Name, dec: Decoders, k: nat) {
    && k < |tags| && Bears(tags[k], name, dec) && IsBlobKind(tags[k].kind)
    && forall j :: 0 <= j < k ==> !(Bears(tags[j], name, dec) && IsBlobKind(tags[j].kind))
  }

  ghost predicate BlobOf(tags: seq<RawTag>, name: Name, dec: Decoders, value: Option<Bytes>) {
    match value
    case Some(b) => exists k: nat :: FirstBlob(tags, name, dec, k) && b == tags[k].payload
    case None => forall j :: 0 <= j < |tags| ==> !(Bears(tags[j], name, dec) && IsBlobKind(tags[j].kind))
  }

  /** What one raw tag is imported as. */
  lemma ImportedIs(raw: RawTag, name: Name, dec: Decoders)
    requires IsIntegerKind(raw.kind) || IsTextKind(raw.kind) || IsBlobKind(raw.kind)
    requires IsTextKind(raw.kind) ==> DecodeString(raw.payload, dec).Some?
    ensures Imported(raw, dec).name == name <==> Bears(raw, name, dec)
    ensures var value := Imported(raw, dec).value;
            && (IsTextKind(raw.kind) <==> value.TextValue?)
            && (value.TextValue? ==> Spells(raw.payload, value.text, dec))
            && (IsBlobKind(raw.kind) <==> value == BytesValue(raw.payload))
            && (IsBlobKind(raw.kind) <==> value.BytesValue?)
            && (IsIntegerKind(raw.kind) && raw.kind != 0x05 ==> value == IntValue(IntegerIn(raw)))
            && (raw.kind == 0x05 ==> value.BoolValue? && IntegerIn(raw) == if value.b then 1 else 0)
  {
    hide LittleEndian;
    assert HasBom(raw.payload) <==> StartsWithMark(raw.payload);
  }

  /** The tags of an accepted record: of known kinds, and their texts decode. */
  ghost predicate Readable(tags: seq<RawTag>, dec: Decoders) {
    KnownKinds(tags) && forall j :: 0 <= j < |tags| ==> TextDecodes(tags[j], dec)
  }

  predicate IsNumber(value: Value) {
    value.IntValue? || value.BoolValue?
  }

  lemma {:induction false} FirstIntAt(tags: seq<Tag>, name: Name) returns (k: nat)
    ensures FirstInt(tags, name).None? <==>
            forall j :: 0 <= j < |tags| ==> !(tags[j].name == name && IsNumber(tags[j].value))
    ensures FirstInt(tags, name).Some? ==>
              && k < |tags| && tags[k].name == name && IsNumber(tags[k].value)
              && FirstInt(tags, name) == Some(if tags[k].value.IntValue? then tags[k].value.n
                                              else if tags[k].value.b then 1 else 0)
              && forall j :: 0 <= j < k ==> !(tags[j].name == name && IsNumber(tags[j].value))
  {
    k := 0;
    if tags != [] && !(tags[0].name == name && IsNumber(tags[0].value)) {
      var rest := FirstIntAt(tags[1..], name);
      assert forall j :: 0 < j < |tags| ==> tags[j] == tags[1..][j - 1];
      k := rest + 1;
    }
  }

  lemma FirstIntIs(tags: seq<RawTag>, name: Name, dec: Decoders)
    requires Readable(tags, dec)
    ensures IntegerOf(tags, name, dec, FirstInt(ImportedAll(tags, dec), name))
  {
    hide Bears, Imported, DecodeString, FirstInt, IntegerIn;
    forall j | 0 <= j < |tags|
      ensures Imported(tags[j], dec).name == name <==> Bears(tags[j], name, dec)
      ensures IsNumber(Imported(tags[j], dec).value) <==> IsIntegerKind(tags[j].kind)
    {
      ImportedIs(tags[j], name, dec);
    }
    var k := FirstIntAt(ImportedAll(tags, dec), name);
    if FirstInt(ImportedAll(tags, dec), name).Some? {
      ImportedIs(tags[k], name, dec);
      assert FirstInteger(tags, name, dec, k);
    }
  }

  lemma {:induction false} FirstTextAt(tags: seq<Tag>, name: Name) returns (k: nat)
    ensures FirstText(tags, name).None? <==>
            forall j :: 0 <= j < |tags| ==> !(tags[j].name == name && tags[j].value.TextValue?)
    ensures FirstText(tags, name).Some? ==>
              && k < |tags| && tags[k].name == name && tags[k].value.TextValue?
              && FirstText(tags, name) == Some(tags[k].value.text)
              && forall j :: 0 <= j < k ==> !(tags[j].name == name && tags[j].value.TextValue?)
  {
    k := 0;
    if tags != [] && !(tags[0].name == name && tags[0].value.TextValue?) {
      var rest := FirstTextAt(tags[1..], name);
      assert forall j :: 0 < j < |tags| ==> tags[j] == tags[1..][j - 1];
      k := rest + 1;
    }
  }

  lemma FirstTextIs(tags: seq<RawTag>, name: Name, dec: Decoders)
    requires Readable(tags, dec)
    ensures TextOf(tags, name, dec, FirstText(ImportedAll(tags, dec), name))
  {
    hide Bears, Imported, DecodeString, FirstText, Spells;
    forall j | 0 <= j < |tags|
      ensures Imported(tags[j], dec).name == name <==> Bears(tags[j], name, dec)
      ensures Imported(tags[j], dec).value.TextValue? <==> IsTextKind(tags[j].kind)
    {
      ImportedIs(tags[j], name, dec);
    }
    var k := FirstTextAt(ImportedAll(tags, dec), name);
    if FirstText(ImportedAll(tags, dec), name).Some? {
      ImportedIs(tags[k], name, dec);
      assert FirstString(tags, name, dec, k);
    }
  }

  lemma {:induction false} FirstBytesAt(tags: seq<Tag>, name: Name) returns (k: nat)
    ensures FirstBytes(tags, name).None? <==>
            forall j :: 0 <= j < |tags| ==> !(tags[j].name == name && tags[j].value.BytesValue?)
    ensures FirstBytes(tags, name).Some? ==>
              && k < |tags| && tags[k].name == name && tags[k].value.BytesValue?
              && FirstBytes(tags, name) == Some(tags[k].value.bytes)
              && forall j :: 0 <= j < k ==> !(tags[j].name == name && tags[j].value.BytesValue?)
  {
    k := 0;
    if tags != [] && !(tags[0].name == name && tags[0].value.BytesValue?) {
      var rest := FirstBytesAt(tags[1..], name);
      assert forall j :: 0 < j < |tags| ==> tags[j] == tags[1..][j - 1];
      k := rest + 1;
    }
  }

  lemma FirstBytesIs(tags: seq<RawTag>, name: Name, dec: Decoders)
    requires Readable(tags, dec)
    ensures BlobOf(tags, name, dec, FirstBytes(ImportedAll(tags, dec), name))
  {
    hide Bears, Imported, DecodeString, FirstBytes;
    forall j | 0 <= j < |tags|
      ensures Imported(tags[j], dec).name == name <==> Bears(tags[j], name, dec)
      ensures Imported(tags[j], dec).value.BytesValue? <==> IsBlobKind(tags[j].kind)
    {
      ImportedIs(tags[j], name, dec);
    }
    var k := FirstBytesAt(ImportedAll(tags, dec), name);
    if FirstBytes(ImportedAll(tags, dec), name).Some? {
      ImportedIs(tags[k], name, dec);
      assert FirstBlob(tags, name, dec, k);
    }
  }

  // ---------------------------------------------------------------- whole entries

  /** A number below 2^32 and one shifted past it share no bit. */
  lemma {:induction false} BitOrAdds(high: nat, low: nat, n: nat)
    requires low < Power(2, n)
    ensures BitOr(high * Power(2, n), low) == high * Power(2, n) + low
  {
    if n > 0 && high != 0 && low != 0 {
      var half := Power(2, n - 1);
      assert high * Power(2, n) == 2 * (high * half);
      assert high * Power(2, n) != 0 by {
        PowerPositive(n);
        assert high * Power(2, n) >= high;
      }
      BitOrAdds(high, low / 2, n - 1);
    }
  }

  lemma {:induction false} PowerPositive(n: nat)
    ensures Power(2, n) > 0
  {
    if n > 0 {
      PowerPositive(n - 1);
    }
  }

  function Power(base: nat, n: nat): nat {
    if n == 0 then 1 else base * Power(base, n - 1)
  }

  /** Bit `i` of a number. */
  predicate Bit(n: nat, i: nat) {
    if i == 0 then n % 2 == 1 else Bit(n / 2, i - 1)
  }

  lemma {:induction false} BitOrMeans(a: nat, b: nat, i: nat)
    ensures Bit(BitOr(a, b), i) <==> Bit(a, i) || Bit(b, i)
    decreases i
  {
    if i == 0 || a == 0 || b == 0 {
      NoBits(i);
    } else {
      BitOrMeans(a / 2, b / 2, i - 1);
    }
  }

  lemma {:induction false} NoBits(i: nat)
    ensures !Bit(0, i)
  {
    if i > 0 {
      NoBits(i - 1);
    }
  }

  lemma UploadedBytesAre(high: nat, low: nat)
    requires low < 0x1_0000_0000
    ensures BitOr(high * 0x1_0000_0000, low) == high * 0x1_0000_0000 + low
  {
    hide BitOr;
    assert Power(2, 32) == 0x1_0000_0000 by {
      assert Power(2, 4) == 16 && Power(2, 8) == 256;
      PowerAdds(8, 8);
      PowerAdds(16, 16);
    }
    BitOrAdds(high, low, 32);
  }

  lemma {:induction false} PowerAdds(m: nat, n: nat)
    ensures Power(2, m + n) == Power(2, m) * Power(2, n)
  {
    if m > 0 {
      PowerAdds(m - 1, n);
    }
  }

  /** The root and the hashes of part of an entry: from blob 0x35 when it is there and not empty, or text 0x27. */
  ghost predicate AichMeans(tags: seq<RawTag>, entry: Entry, dec: Decoders) {
    exists blob :: BlobOf(tags, Id(0x35), dec, blob)
                   && if blob.Some? && blob.value != [] then BlobMeans(blob.value, entry)
                      else entry.aich == [] && RootTagMeans(tags, entry, dec)
  }

  ghost predicate BlobMeans(b: Bytes, entry: Entry) {
    && |b| >= 22 && |b| == 22 + 20 * TwoBytes(b, 20) && entry.aichRoot == Some(b[..20])
    && |entry.aich| == TwoBytes(b, 20) && forall i: nat :: i < |entry.aich| ==> Is(entry.aich[i], b, 22 + 20 * i, 20)
  }

  ghost predicate RootTagMeans(tags: seq<RawTag>, entry: Entry, dec: Decoders) {
    exists text :: TextOf(tags, Id(0x27), dec, text)
                   && entry.aichRoot == if text == None || text == Some("") then None else dec.aichRoot(text.value)
  }

  /** Priority 5 is automatic; 4, 0, 2 and 3 have names; everything else is normal. */
  ghost predicate PriorityMeans(tags: seq<RawTag>, entry: Entry, dec: Decoders) {
    exists value :: IntegerOf(tags, Id(0x19), dec, value)
                    && (entry.autoUploadPriority <==> value == Some(5))
                    && entry.uploadPriority == if value == Some(4) then "verylow" else if value == Some(0) then "low"
                       else if value == Some(2) then "high" else if value == Some(3) then "release" else "normal"
  }

  /** The low word and the high word of the bytes uploaded; a low word with more than 32 bits is joined bit by bit. */
  ghost predicate UploadedMeans(tags: seq<RawTag>, entry: Entry, dec: Decoders) {
    exists low, high :: IntegerOf(tags, Id(0x50), dec, low) && IntegerOf(tags, Id(0x54), dec, high)
                        && (low.GetOr(0) < 0x1_0000_0000 ==>
                              entry.uploadedBytes == high.GetOr(0) * 0x1_0000_0000 + low.GetOr(0))
                        && forall i :: Bit(entry.uploadedBytes, i) <==>
                                       Bit(high.GetOr(0) * 0x1_0000_0000, i) || Bit(low.GetOr(0), i)
  }

  /** An integer field that is nought without its tag. */
  ghost predicate CountMeans(tags: seq<RawTag>, name: Name, dec: Decoders, n: nat) {
    exists value :: IntegerOf(tags, name, dec, value) && n == value.GetOr(0)
  }

  /** Every field of an entry, told of the raw record that it is made from. */
  ghost predicate EntryMeans(raw: RawRecord, entry: Entry, dec: Decoders) {
    && entry.modifiedS == raw.modifiedS && entry.ed2kHash == raw.hash && entry.md4 == raw.parts
    && TextOf(raw.tags, Id(0x01), dec, entry.name) && IntegerOf(raw.tags, Id(0x02), dec, entry.size)
    && AichMeans(raw.tags, entry, dec) && PriorityMeans(raw.tags, entry, dec) && UploadedMeans(raw.tags, entry, dec)
    && CountMeans(raw.tags, Id(0x51), dec, entry.uploadRequests)
    && CountMeans(raw.tags, Id(0x52), dec, entry.uploadAccepts)
    && entry.lastUploadRequestMs % 1000 == 0
    && CountMeans(raw.tags, Text("LastRequest"), dec, entry.lastUploadRequestMs / 1000)
  }

  lemma BlobIsParsed(b: Bytes)
    ensures ParseAichBlob(b).Ok? <==> |b| >= 22 && |b| == 22 + 20 * TwoBytes(b, 20)
    ensures ParseAichBlob(b).Ok? ==>
              var (root, hashes) := ParseAichBlob(b).value;
              && root == b[..20] && |hashes| == TwoBytes(b, 20)
              && forall i: nat :: i < |hashes| ==> Is(hashes[i], b, 22 + 20 * i, 20)
  {
    hide LittleEndian, Hashes, Is;
    if |b| >= 22 {
      LittleEndianIs(b[20..22]);
      var count := TwoBytes(b, 20);
      if |b| == 22 + 20 * count {
        HashesFit(b, 22, 20, count);
        HashesAre(b, 22, 20, count);
      }
    }
  }

  lemma AichIs(raw: RawRecord, dec: Decoders)
    requires Readable(raw.tags, dec) && EntryOf(raw, dec).Ok?
    ensures AichMeans(raw.tags, EntryOf(raw, dec).value, dec)
  {
    hide FirstBytes, FirstInt, FirstText, BitOr, ParseUploadPriority, LittleEndian, ImportedAll, ParseAichBlob;
    hide BlobOf, TextOf, Readable;
    var entry := EntryOf(raw, dec).value;
    var tags := ImportedAll(raw.tags, dec);
    FirstBytesIs(raw.tags, Id(0x35), dec);
    FirstTextIs(raw.tags, Id(0x27), dec);
    var blob := FirstBytes(tags, Id(0x35));
    if blob.Some? && blob.value != [] {
      BlobIsParsed(blob.value);
      assert BlobMeans(blob.value, entry);
    } else {
      assert RootTagMeans(raw.tags, entry, dec);
    }
  }

  lemma PriorityIs(raw: RawRecord, dec: Decoders)
    requires Readable(raw.tags, dec) && EntryOf(raw, dec).Ok?
    ensures PriorityMeans(raw.tags, EntryOf(raw, dec).value, dec)
  {
    hide FirstBytes, FirstInt, FirstText, BitOr, AichRootTag, LittleEndian, ImportedAll, ParseAichBlob;
    hide IntegerOf, Readable;
    FirstIntIs(raw.tags, Id(0x19), dec);
  }

  lemma UploadedIs(raw: RawRecord, dec: Decoders)
    requires Readable(raw.tags, dec) && EntryOf(raw, dec).Ok?
    ensures UploadedMeans(raw.tags, EntryOf(raw, dec).value, dec)
  {
    hide FirstBytes, FirstInt, FirstText, BitOr, AichRootTag, LittleEndian, ImportedAll, ParseAichBlob, Bit;
    hide ParseUploadPriority, IntegerOf, Readable;
    var tags := ImportedAll(raw.tags, dec);
    FirstIntIs(raw.tags, Id(0x50), dec);
    FirstIntIs(raw.tags, Id(0x54), dec);
    var low, high := FirstInt(tags, Id(0x50)), FirstInt(tags, Id(0x54));
    if low.GetOr(0) < 0x1_0000_0000 {
      UploadedBytesAre(high.GetOr(0), low.GetOr(0));
    }
    forall i: nat
      ensures Bit(BitOr(high.GetOr(0) * 0x1_0000_0000, low.GetOr(0)), i) <==>
              Bit(high.GetOr(0) * 0x1_0000_0000, i) || Bit(low.GetOr(0), i)
    {
      BitOrMeans(high.GetOr(0) * 0x1_0000_0000, low.GetOr(0), i);
    }
  }

  /** Each field of an entry comes from the first tag of its number, or its name, that has the right kind. */
  lemma EntryIs(raw: RawRecord, dec: Decoders)
    requires Readable(raw.tags, dec) && EntryOf(raw, dec).Ok?
    ensures EntryMeans(raw, EntryOf(raw, dec).value, dec)
  {
    hide FirstBytes, FirstInt, FirstText, BitOr, AichRootTag, LittleEndian, ImportedAll, ParseAichBlob;
    hide ParseUploadPriority, IntegerOf, TextOf, BlobOf, Readable, AichMeans, PriorityMeans, UploadedMeans;
    EntryKeeps(raw, dec);
    AichIs(raw, dec);
    PriorityIs(raw, dec);
    UploadedIs(raw, dec);
    FirstTextIs(raw.tags, Id(0x01), dec);
    FirstIntIs(raw.tags, Id(0x02), dec);
    FirstIntIs(raw.tags, Id(0x51), dec);
    FirstIntIs(raw.tags, Id(0x52), dec);
    FirstIntIs(raw.tags, Text("LastRequest"), dec);
  }

  // ---------------------------------------------------------------- files

  /** The records lie one after the other from `p` to `q`. */
  ghost predicate RecordsTile(d: Bytes, p: nat, raws: seq<RawRecord>, q: nat, at: seq<nat>) {
    && |at| == |raws| + 1 && at[0] == p && at[|raws|] == q
    && forall i :: 0 <= i < |raws| ==> RecordBytes(d, at[i], raws[i], at[i + 1])
  }

  /** A known.met file is a header byte of 14 or 15, a count of four bytes, and that many records. */
  lemma LayoutKnownMetIs(d: Bytes) returns (at: seq<nat>)
    requires LayoutKnownMet(d).Ok?
    ensures |d| >= 5 && (d[0] == 0x0E || d[0] == 0x0F) && |LayoutKnownMet(d).value.0| == FourBytes(d, 1)
    ensures RecordsTile(d, 5, LayoutKnownMet(d).value.0, LayoutKnownMet(d).value.1, at)
    ensures forall i :: 0 <= i < |at| - 1 ==> LayoutRecord(d, at[i]) == Ok((LayoutKnownMet(d).value.0[i], at[i + 1]))
  {
    hide LayoutRecord, RecordBytes, Uint;
    UintIs(d, 0);
    UintIs(d, 1);
    var step := (w: nat) => LayoutRecord(d, w);
    var n := FourBytes(d, 1);
    at := ManyAt(step, 5, n);
    var raws := Many(step, 5, n).value.0;
    forall i | 0 <= i < n
      ensures RecordBytes(d, at[i], raws[i], at[i + 1]) && LayoutRecord(d, at[i]) == Ok((raws[i], at[i + 1]))
    {
      assert step(at[i]) == LayoutRecord(d, at[i]);
      LayoutRecordIs(d, at[i]);
    }
  }

  lemma StrictIsReadable(d: Bytes, p: nat, raw: RawRecord, q: nat, dec: Decoders)
    requires RecordBytes(d, p, raw, q) && IsStrict(raw, dec)
    ensures Readable(raw.tags, dec)
  {
    hide TagsTile, AichBlobFits, TextDecodes;
    var at, t :| TagsTile(d, t, raw.tags, q, at) && t == p + 26 + 16 * |raw.parts|;
    TilingTagsAreKnown(d, t, raw.tags, q, at);
  }

  /** What the importer asks of a record: texts that decode, and a blob 0x35 that is as long as its count says. */
  lemma StrictIs(raw: RawRecord, dec: Decoders)
    requires KnownKinds(raw.tags)
    ensures IsStrict(raw, dec) <==>
            && (forall i :: 0 <= i < |raw.tags| ==>
                  raw.tags[i].kind == 0x02 || 0x11 <= raw.tags[i].kind <= 0x20 ==>
                    !StartsWithMark(raw.tags[i].payload) || dec.strictUtf8(raw.tags[i].payload[3..]).Some?)
            && exists blob :: BlobOf(raw.tags, Id(0x35), dec, blob) && BlobLengthFits(blob)
  {
    hide ImportedAll, FirstBytes, LittleEndian, BlobOf;
    assert forall b: Bytes :: HasBom(b) <==> StartsWithMark(b);
    if forall i :: 0 <= i < |raw.tags| ==> TextDecodes(raw.tags[i], dec) {
      var blob := FirstBytes(ImportedAll(raw.tags, dec), Id(0x35));
      FirstBytesIs(raw.tags, Id(0x35), dec);
      if blob.Some? && |blob.value| >= 22 {
        LittleEndianIs(blob.value[20..22]);
      }
      if exists other :: BlobOf(raw.tags, Id(0x35), dec, other) && BlobLengthFits(other) {
        var other :| BlobOf(raw.tags, Id(0x35), dec, other) && BlobLengthFits(other);
        OneBlob(raw.tags, Id(0x35), dec, blob, other);
      }
    }
  }

  predicate BlobLengthFits(blob: Option<Bytes>) {
    blob == None || blob == Some([]) || (|blob.value| >= 22 && |blob.value| == 22 + 20 * TwoBytes(blob.value, 20))
  }

  lemma OneBlob(tags: seq<RawTag>, name: Name, dec: Decoders, a: Option<Bytes>, b: Option<Bytes>)
    requires BlobOf(tags, name, dec, a) && BlobOf(tags, name, dec, b)
    ensures a == b
  {
    hide Bears, IsBlobKind;
    if a.Some? && b.Some? {
      var k: nat :| FirstBlob(tags, name, dec, k) && a.value == tags[k].payload;
      var l: nat :| FirstBlob(tags, name, dec, l) && b.value == tags[l].payload;
      assert k == l;
    }
  }

  /** The importer makes one entry of each record of a file that it accepts, in order, and it reads the whole file. */
  lemma ImportedFileMeans(d: Bytes, dec: Decoders)
    requires Parse(d, dec).Ok?
    ensures LayoutKnownMet(d).Ok? && LayoutKnownMet(d).value.1 == |d|
    ensures |Parse(d, dec).value| == |LayoutKnownMet(d).value.0|
    ensures forall i :: 0 <= i < |Parse(d, dec).value| ==>
              EntryMeans(LayoutKnownMet(d).value.0[i], Parse(d, dec).value[i], dec)
  {
    hide ReadRecord, LayoutRecord, IsStrict, Uint, Many, EntryOf, EntryMeans, RecordBytes, Readable;
    ImportReadsLayoutRecords(d, Uint(d, Uint(d, 0, 1).value.1, 4).value.1, Uint(d, Uint(d, 0, 1).value.1, 4).value.0,
                             dec);
    var at := LayoutKnownMetIs(d);
    var raws, entries := LayoutKnownMet(d).value.0, Parse(d, dec).value;
    forall i | 0 <= i < |entries|
      ensures EntryMeans(raws[i], entries[i], dec)
    {
      assert IsStrict(raws[i], dec) && EntryOf(raws[i], dec) == Ok(entries[i]);
      StrictIsReadable(d, at[i], raws[i], at[i + 1], dec);
      EntryIs(raws[i], dec);
    }
  }

  /** A text as the dumper shows it: behind a byte order mark UTF-8 with replacement, and else the ANSI code page. */
  function Shown(b: Bytes, dec: Decoders): string {
    if StartsWithMark(b) then dec.lenientUtf8(b[3..]) else dec.ansi(b)
  }

  /** What the dumper shows of a raw tag. */
  ghost predicate TagShown(raw: RawTag, tag: DumpTag, dec: Decoders) {
    && tag.tagType == raw.kind
    && (raw.name.RawId? ==> tag.name == Id(raw.name.id))
    && (raw.name.RawText? ==> tag.name == Text(Shown(raw.name.bytes, dec)))
    && (raw.kind == 0x02 || 0x11 <= raw.kind <= 0x20 ==> tag.value == DumpText(Shown(raw.payload, dec)))
    && (raw.kind in {0x03, 0x08, 0x09, 0x0B} ==> tag.value == DumpInt(LittleEndian(raw.payload)))
    && (raw.kind == 0x05 ==> tag.value == DumpBool(LittleEndian(raw.payload) != 0))
    && (raw.kind == 0x04 || raw.kind == 0x07 ==> tag.value == DumpBytes(raw.payload))
    && (raw.kind == 0x06 ==> tag.value == DumpBits(raw.bits, raw.payload))
  }

  ghost predicate RecordShown(raw: RawRecord, record: DumpRecord, dec: Decoders) {
    && record.modifiedUnix == raw.modifiedS && record.ed2kHash == raw.hash
    && record.partHashCount == |raw.parts| && record.partHashes == raw.parts && |record.tags| == |raw.tags|
    && forall j :: 0 <= j < |raw.tags| ==> TagShown(raw.tags[j], record.tags[j], dec)
  }

  lemma DumpRecordShows(raw: RawRecord, record: DumpRecord, dec: Decoders)
    requires record.(offset := 0) == DumpRecordOf(raw, dec)
    ensures RecordShown(raw, record, dec)
  {
    hide LittleEndian;
    var shown := DumpRecordOf(raw, dec);
    assert forall b: Bytes :: HasBom(b) <==> StartsWithMark(b);
    assert record.tags == shown.tags == DumpedAll(raw.tags, dec);
  }

  /** The dumper shows every record and every tag of the layout, and how many bytes lie behind them. */
  lemma DumpedFileMeans(d: Bytes, dec: Decoders) returns (at: seq<nat>)
    requires DumpFile(d, dec).Ok?
    ensures LayoutKnownMet(d).Ok?
    ensures var dump := DumpFile(d, dec).value; var (raws, q) := LayoutKnownMet(d).value;
            && dump.version == d[0] && dump.trailingBytes == |d| - q
            && dump.recordCount == |dump.records| == |raws| && RecordsTile(d, 5, raws, q, at)
            && forall i :: 0 <= i < |raws| ==>
                 && RecordShown(raws[i], dump.records[i], dec)
                 && dump.records[i].index == i && dump.records[i].offset == at[i]
  {
    hide DumpOneRecord, LayoutRecord, Uint, DumpRecordOf, RecordShown, RecordsTile, Many;
    UintIs(d, 0);
    UintIs(d, 1);
    var n := FourBytes(d, 1);
    DumpReadsLayoutRecords(d, 5, n, dec);
    at := LayoutKnownMetIs(d);
    var raws := LayoutKnownMet(d).value.0;
    var records := Many((w: nat) => DumpOneRecord(d, w, dec), 5, n).value.0;
    assert at[0] == 5 && |at| == |raws| + 1 by {
      TileStarts(d, 5, raws, LayoutKnownMet(d).value.1, at);
    }
    forall i | 0 <= i < n
      ensures LayoutRecord(d, at[i]).Ok? && LayoutRecord(d, at[i]).value.1 == at[i + 1]
    {
      assert LayoutRecord(d, at[i]) == Ok((raws[i], at[i + 1]));
    }
    OffsetsAre(d, n, at, dec);
    forall i | 0 <= i < n
      ensures RecordShown(raws[i], records[i].(index := i), dec) && records[i].offset == at[i]
    {
      assert records[i].(offset := 0) == DumpRecordOf(raws[i], dec);
      DumpRecordShows(raws[i], records[i], dec);
      SameShown(raws[i], records[i], i, dec);
    }
  }

  lemma TileStarts(d: Bytes, p: nat, raws: seq<RawRecord>, q: nat, at: seq<nat>)
    requires RecordsTile(d, p, raws, q, at)
    ensures at != [] && at[0] == p && |at| == |raws| + 1
  {
    hide RecordBytes;
  }

  lemma SameShown(raw: RawRecord, record: DumpRecord, index: nat, dec: Decoders)
    requires RecordShown(raw, record, dec)
    ensures RecordShown(raw, record.(index := index), dec)
  {
    hide TagShown;
  }

  /** The dumper numbers a record by the position where the layout has it. */
  lemma OffsetsAre(d: Bytes, n: nat, at: seq<nat>, dec: Decoders)
    requires |at| == n + 1 && at[0] == 5
    requires forall i :: 0 <= i < n ==> LayoutRecord(d, at[i]).Ok? && LayoutRecord(d, at[i]).value.1 == at[i + 1]
    requires Many((w: nat) => DumpOneRecord(d, w, dec), 5, n).Ok?
    ensures |Many((w: nat) => DumpOneRecord(d, w, dec), 5, n).value.0| == n
    ensures forall i :: 0 <= i < n ==> Many((w: nat) => DumpOneRecord(d, w, dec), 5, n).value.0[i].offset == at[i]
  {
    hide DumpOneRecord, LayoutRecord, DumpRecordOf;
    var step := (w: nat) => DumpOneRecord(d, w, dec);
    var records := Many(step, 5, n).value.0;
    var start := ManyAt(step, 5, n);
    for i := 0 to n
      invariant start[i] == at[i]
      invariant forall k :: 0 <= k < i ==> records[k].offset == at[k]
    {
      assert step(start[i]) == DumpOneRecord(d, start[i], dec);
      DumpReadsLayoutRecord(d, start[i], dec);
    }
  }
}
