/**
 The layout of eMule MET files, as positions in a byte string: little-endian integers, counted items,
 and tags. What a tag's text or blob means is left to the two parsers.
 */
module MetFormat {
  import opened Outcomes
  import opened Hex

  const MET_HEADER := 0x0E
  const MET_HEADER_I64TAGS := 0x0F
  const KNOWN2_MET_VERSION := 0x02

  const TAGTYPE_STRING := 0x02
  const TAGTYPE_UINT32 := 0x03
  const TAGTYPE_FLOAT32 := 0x04
  const TAGTYPE_BOOL := 0x05
  const TAGTYPE_BOOLARRAY := 0x06
  const TAGTYPE_BLOB := 0x07
  const TAGTYPE_UINT16 := 0x08
  const TAGTYPE_UINT8 := 0x09
  const TAGTYPE_UINT64 := 0x0B
  const TAGTYPE_STR1 := 0x11
  const TAGTYPE_STR16 := 0x20

  /** A value read at some position, and the position after it. */
  type Read<T> = Result<(T, nat)>

  function LittleEndian(b: Bytes): nat {
    if b == [] then 0 else b[0] + 256 * LittleEndian(b[1..])
  }

  function Take(d: Bytes, p: nat, n: nat): Read<Bytes> {
    if p + n <= |d| then Ok((d[p..p + n], p + n)) else Err(Truncated)
  }

  function Uint(d: Bytes, p: nat, width: nat): Read<nat> {
    var (b, q) :- Take(d, p, width);
    Ok((LittleEndian(b), q))
  }

  function TwoBytes(d: Bytes, p: nat): nat
    requires p + 2 <= |d|
  {
    d[p] as nat + 256 * d[p + 1] as nat
  }

  function FourBytes(d: Bytes, p: nat): nat
    requires p + 4 <= |d|
  {
    d[p] as nat + 0x100 * d[p + 1] as nat + 0x1_0000 * d[p + 2] as nat + 0x100_0000 * d[p + 3] as nat
  }

  /** The least significant byte comes first. */
  lemma LittleEndianIs(b: Bytes)
    ensures |b| == 1 ==> LittleEndian(b) == b[0]
    ensures |b| == 2 ==> LittleEndian(b) == TwoBytes(b, 0)
    ensures |b| == 4 ==> LittleEndian(b) == FourBytes(b, 0)
  {
    if |b| == 1 {
      assert LittleEndian(b[1..]) == 0;
    } else if |b| == 2 {
      assert b[1..][1..] == [];
      assert LittleEndian(b[1..]) == b[1] + 256 * LittleEndian([]);
    } else if |b| == 4 {
      var c := b[1..];
      var e := c[1..];
      var f := e[1..];
      assert f[1..] == [] && f[0] == b[3];
      assert LittleEndian(f) == b[3] + 256 * LittleEndian([]);
      assert LittleEndian(e) == b[2] + 256 * LittleEndian(f);
      assert LittleEndian(c) == b[1] + 256 * LittleEndian(e);
    }
  }

  /** An integer of eight bytes is two of four, the low one first. */
  lemma EightBytes(b: Bytes)
    requires |b| == 8
    ensures LittleEndian(b) == FourBytes(b, 0) + 0x1_0000_0000 * FourBytes(b, 4)
  {
    var b1 := b[1..];
    var b2 := b1[1..];
    var b3 := b2[1..];
    assert b3[1..] == b[4..];
    assert LittleEndian(b2) == b[2] + 256 * LittleEndian(b3);
    assert LittleEndian(b1) == b[1] + 256 * LittleEndian(b2);
    LittleEndianIs(b[4..]);
  }

  lemma OneByte(d: Bytes, p: nat)
    requires p < |d|
    ensures Uint(d, p, 1) == Ok((d[p], p + 1))
  {
    assert d[p..p + 1] == [d[p]];
    assert LittleEndian([d[p]][1..]) == 0;
  }

  lemma UintIs(d: Bytes, p: nat)
    ensures Uint(d, p, 1) == if p + 1 <= |d| then Ok((d[p] as nat, p + 1)) else Err(Truncated)
    ensures Uint(d, p, 2) == if p + 2 <= |d| then Ok((TwoBytes(d, p), p + 2)) else Err(Truncated)
    ensures Uint(d, p, 4) == if p + 4 <= |d| then Ok((FourBytes(d, p), p + 4)) else Err(Truncated)
  {
    hide LittleEndian;
    if p + 1 <= |d| {
      LittleEndianIs(d[p..p + 1]);
    }
    if p + 2 <= |d| {
      LittleEndianIs(d[p..p + 2]);
    }
    if p + 4 <= |d| {
      LittleEndianIs(d[p..p + 4]);
    }
  }

  /** `n` items one after the other. */
  function Many<T>(step: nat -> Read<T>, p: nat, n: nat): Read<seq<T>> {
    if n == 0 then Ok(([], p))
    else
      var (items, q) :- Many(step, p, n - 1);
      var (item, r) :- step(q);
      Ok((items + [item], r))
  }

  lemma {:induction false} ManyStaysBroken<T>(step: nat -> Read<T>, p: nat, m: nat, n: nat)
    requires m <= n && Many(step, p, m).Err?
    ensures Many(step, p, n).Err?
  {
    if m < n {
      ManyStaysBroken(step, p, m, n - 1);
    }
  }

  /** A blob preceded by its length, an integer of `width` bytes. */
  function Counted(d: Bytes, p: nat, width: nat): Read<Bytes> {
    var (n, q) :- Uint(d, p, width);
    Take(d, q, n)
  }

  function Hashes(d: Bytes, p: nat, width: nat, n: nat): Read<seq<Bytes>> {
    Many((q: nat) => Take(d, q, width), p, n)
  }

  // ---------------------------------------------------------------- tags, uninterpreted

  datatype RawName = RawId(id: nat) | RawText(bytes: Bytes)

  /** A tag with its payload as bytes; `bits` is the bit count of a bit array. */
  datatype RawTag = RawTag(name: RawName, kind: nat, bits: nat, payload: Bytes)

  predicate IsShortString(kind: nat) {
    TAGTYPE_STR1 <= kind <= TAGTYPE_STR16
  }

  predicate IsString(kind: nat) {
    kind == TAGTYPE_STRING || IsShortString(kind)
  }

  /** The payload width of the kinds of fixed width. */
  function FixedWidth(kind: nat): Option<nat> {
    if kind == TAGTYPE_UINT32 || kind == TAGTYPE_FLOAT32 then Some(4)
    else if kind == TAGTYPE_UINT64 then Some(8)
    else if kind == TAGTYPE_UINT16 then Some(2)
    else if kind == TAGTYPE_UINT8 || kind == TAGTYPE_BOOL then Some(1)
    else if IsShortString(kind) then Some(kind - TAGTYPE_STR1 + 1)
    else None
  }

  function LayoutName(d: Bytes, p: nat, special: bool): Read<RawName> {
    if special then
      var (id, q) :- Uint(d, p, 1);
      Ok((RawId(id), q))
    else
      var (n, q) :- Uint(d, p, 2);
      if n == 1 then
        var (id, r) :- Uint(d, q, 1);
        Ok((RawId(id), r))
      else
        var (b, r) :- Take(d, q, n);
        Ok((RawText(b), r))
  }

  function LayoutPayload(d: Bytes, p: nat, kind: nat): Read<(nat, Bytes)> {
    match FixedWidth(kind)
    case Some(width) =>
      var (b, q) :- Take(d, p, width);
      Ok(((0, b), q))
    case None =>
      if kind == TAGTYPE_STRING then
        var (b, q) :- Counted(d, p, 2);
        Ok(((0, b), q))
      else if kind == TAGTYPE_BLOB then
        var (b, q) :- Counted(d, p, 4);
        Ok(((0, b), q))
      else if kind == TAGTYPE_BOOLARRAY then
        var (bits, q) :- Uint(d, p, 2);
        var (b, r) :- Take(d, q, bits / 8 + 1);
        Ok(((bits, b), r))
      else Err(BadTagType)
  }

  function LayoutTag(d: Bytes, p: nat): Read<RawTag> {
    var (rawType, q) :- Uint(d, p, 1);
    var (name, r) :- LayoutName(d, q, rawType >= 0x80);
    var (payload, s) :- LayoutPayload(d, r, rawType % 0x80);
    Ok((RawTag(name, rawType % 0x80, payload.0, payload.1), s))
  }

  // ---------------------------------------------------------------- known.met records, uninterpreted

  datatype RawRecord = RawRecord(modifiedS: nat, hash: Bytes, parts: seq<Bytes>, tags: seq<RawTag>)

  function LayoutRecord(d: Bytes, p: nat): Read<RawRecord> {
    var (modifiedS, q) :- Uint(d, p, 4);
    var (hash, r) :- Take(d, q, 16);
    var (partCount, s) :- Uint(d, r, 2);
    var (parts, t) :- Hashes(d, s, 16, partCount);
    var (tagCount, u) :- Uint(d, t, 4);
    var (tags, v) :- Many((w: nat) => LayoutTag(d, w), u, tagCount);
    Ok((RawRecord(modifiedS, hash, parts, tags), v))
  }

  /** The records of a known.met file and the position after them. */
  function LayoutKnownMet(d: Bytes): Read<seq<RawRecord>> {
    var (header, p) :- Uint(d, 0, 1);
    if header != MET_HEADER && header != MET_HEADER_I64TAGS then Err(BadHeader)
    else
      var (count, q) :- Uint(d, p, 4);
      Many((w: nat) => LayoutRecord(d, w), q, count)
  }

  // ---------------------------------------------------------------- two item readers over one layout

  /** `step` accepts exactly the raw items that are `good`, consumes what the layout does and shows `view` of them. */
  ghost predicate Refines<R, T, V>(layout: nat -> Read<R>, good: R -> bool, step: nat -> Read<T>,
                                   shown: R -> V, view: T -> V)
  {
    forall p: nat {:trigger step(p)} {:trigger layout(p)} ::
      && (step(p).Ok? <==> layout(p).Ok? && good(layout(p).value.0))
      && (step(p).Ok? ==> step(p).value.1 == layout(p).value.1 && view(step(p).value.0) == shown(layout(p).value.0))
  }

  /** Reading many items refines the layout when reading one does. */
  lemma {:induction false} ManyRefines<R, T, V>(layout: nat -> Read<R>, good: R -> bool, step: nat -> Read<T>,
                                                shown: R -> V, view: T -> V, p: nat, n: nat)
    requires Refines(layout, good, step, shown, view)
    ensures var raw, read := Many(layout, p, n), Many(step, p, n);
            && (read.Ok? <==> raw.Ok? && forall i :: 0 <= i < |raw.value.0| ==> good(raw.value.0[i]))
            && (raw.Ok? ==> |raw.value.0| == n)
            && (read.Ok? ==> read.value.1 == raw.value.1 && |read.value.0| == n
                             && forall i :: 0 <= i < n ==> view(read.value.0[i]) == shown(raw.value.0[i]))
  {
    if n > 0 {
      ManyRefines(layout, good, step, shown, view, p, n - 1);
      var raw := Many(layout, p, n - 1);
      if raw.Ok? && layout(raw.value.1).Ok? {
        var q := raw.value.1;
        var whole := Many(layout, p, n).value.0;
        assert whole == raw.value.0 + [layout(q).value.0];
        assert whole[n - 1] == layout(q).value.0 && forall i :: 0 <= i < n - 1 ==> whole[i] == raw.value.0[i];
        assert step(q).Ok? <==> good(layout(q).value.0);
      }
    }
  }
}
