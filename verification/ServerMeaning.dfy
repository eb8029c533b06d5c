/** What a server.met file holds, told of its bytes, and which of its servers parsing returns. */
module ServerMeaning {
  import opened Outcomes
  import opened Hex
  import opened MetFormat
  import opened KnownMetImport
  import opened KnownMetAgreement
  import opened KnownMetMeaning
  import opened ServerMet

  // ---------------------------------------------------------------- one server

  datatype RawServer = RawServer(ip: Bytes, port: nat, tags: seq<RawTag>)

  function LayoutServer(d: Bytes, p: nat): Read<RawServer> {
    var (ip, q) :- Take(d, p, 4);
    var (port, r) :- Uint(d, q, 2);
    var (tagCount, s) :- Uint(d, r, 4);
    var (tags, t) :- Many((w: nat) => LayoutTag(d, w), s, tagCount);
    Ok((RawServer(ip, port, tags), t))
  }

  /** A server lies from `p` to `q`: four bytes of address, two of port, a count of four bytes and that many tags. */
  ghost predicate ServerBytes(d: Bytes, p: nat, raw: RawServer, q: nat) {
    && p + 10 <= |d|
    && raw.ip == d[p..p + 4] && raw.port == TwoBytes(d, p + 4) && |raw.tags| == FourBytes(d, p + 6)
    && exists at: seq<nat>, t :: TagsTile(d, t, raw.tags, q, at) && t == p + 10
  }

  lemma LayoutServerIs(d: Bytes, p: nat)
    ensures LayoutServer(d, p).Ok? ==> ServerBytes(d, p, LayoutServer(d, p).value.0, LayoutServer(d, p).value.1)
  {
    hide Uint, Many, TagsTile;
    UintIs(d, p + 4);
    UintIs(d, p + 6);
    if p + 10 <= |d| && Many((w: nat) => LayoutTag(d, w), p + 10, FourBytes(d, p + 6)).Ok? {
      var at := LayoutTagsTile(d, p + 10, FourBytes(d, p + 6));
    }
  }

  /** Tag number `k` is the last text that bears the number one. */
  predicate LastText(tags: seq<RawTag>, k: nat) {
    && k < |tags| && tags[k].name == RawId(0x01) && IsTextKind(tags[k].kind)
    && forall j :: k < j < |tags| ==> !(tags[j].name == RawId(0x01) && IsTextKind(tags[j].kind))
  }

  /** The name of a server is its last text tag 0x01, and empty when it has none. */
  ghost predicate NameOf(tags: seq<RawTag>, name: string, dec: Decoders) {
    if exists j :: 0 <= j < |tags| && tags[j].name == RawId(0x01) && IsTextKind(tags[j].kind) then
      exists k: nat :: LastText(tags, k) && Spells(tags[k].payload, name, dec)
    else name == ""
  }

  lemma {:induction false} LastNameAt(tags: seq<Tag>) returns (k: nat)
    ensures (forall j :: 0 <= j < |tags| ==> !(tags[j].name == Id(1) && tags[j].value.TextValue?)) ==>
              LastName(tags) == ""
    ensures (exists j :: 0 <= j < |tags| && tags[j].name == Id(1) && tags[j].value.TextValue?) ==>
              && k < |tags| && tags[k].name == Id(1) && tags[k].value == TextValue(LastName(tags))
              && forall j :: k < j < |tags| ==> !(tags[j].name == Id(1) && tags[j].value.TextValue?)
  {
    k := 0;
    if tags != [] {
      var n := |tags| - 1;
      k := LastNameAt(tags[..n]);
      if tags[n].name == Id(1) && tags[n].value.TextValue? {
        k := n;
      }
    }
  }

  lemma LastNameIs(tags: seq<RawTag>, dec: Decoders)
    requires Readable(tags, dec)
    ensures NameOf(tags, LastName(ImportedAll(tags, dec)), dec)
  {
    hide Imported, DecodeString, LastName, Spells;
    forall j | 0 <= j < |tags|
      ensures Imported(tags[j], dec).name == Id(0x01) <==> tags[j].name == RawId(0x01)
      ensures Imported(tags[j], dec).value.TextValue? <==> IsTextKind(tags[j].kind)
    {
      ImportedIs(tags[j], Id(0x01), dec);
    }
    var k := LastNameAt(ImportedAll(tags, dec));
    if exists j :: 0 <= j < |tags| && tags[j].name == RawId(0x01) && IsTextKind(tags[j].kind) {
      var j :| 0 <= j < |tags| && tags[j].name == RawId(0x01) && IsTextKind(tags[j].kind);
      assert ImportedAll(tags, dec)[j].value.TextValue?;
      ImportedIs(tags[k], Id(0x01), dec);
      assert LastText(tags, k);
    }
  }

  /** A server as parsed, told of its raw form. */
  ghost predicate ServerMeans(raw: RawServer, server: Server, dec: Decoders) {
    server.address == raw.ip && server.port == raw.port && NameOf(raw.tags, server.name, dec)
  }

  /** A server parses exactly when its layout does and its texts decode. */
  lemma ServerReadsLayout(d: Bytes, p: nat, dec: Decoders)
    ensures var raw, read := LayoutServer(d, p), ServerAt(d, p, dec);
            && (read.Ok? <==>
                  raw.Ok? && forall i :: 0 <= i < |raw.value.0.tags| ==> TextDecodes(raw.value.0.tags[i], dec))
            && (read.Ok? ==> read.value.1 == raw.value.1 && ServerMeans(raw.value.0, read.value.0, dec))
  {
    hide Uint, Take, Many, LastName, TextDecodes, NameOf;
    var (_, q) := if Take(d, p, 4).Ok? then Take(d, p, 4).value else ([], 0);
    var (_, r) := if Uint(d, q, 2).Ok? then Uint(d, q, 2).value else (0, 0);
    var (tagCount, s) := if Uint(d, r, 4).Ok? then Uint(d, r, 4).value else (0, 0);
    ImportReadsLayoutTags(d, s, tagCount, dec);
    var raw := LayoutServer(d, p);
    if raw.Ok? && forall i :: 0 <= i < |raw.value.0.tags| ==> TextDecodes(raw.value.0.tags[i], dec) {
      LayoutServerIs(d, p);
      ServerTagsKnown(d, p, raw.value.0, raw.value.1);
      LastNameIs(raw.value.0.tags, dec);
    }
  }

  lemma ServerTagsKnown(d: Bytes, p: nat, raw: RawServer, q: nat)
    requires ServerBytes(d, p, raw, q)
    ensures KnownKinds(raw.tags)
  {
    hide TagsTile;
    var at, t :| TagsTile(d, t, raw.tags, q, at) && t == p + 10;
    TilingTagsAreKnown(d, t, raw.tags, q, at);
  }

  // ---------------------------------------------------------------- files

  /** A file of servers: a header byte of 14 or 224, a count of four bytes, and that many servers up to the end. */
  ghost predicate ServersTile(d: Bytes, raws: seq<RawServer>, at: seq<nat>) {
    && |d| >= 5 && (d[0] == 0x0E || d[0] == 0xE0) && |raws| == FourBytes(d, 1) <= 1_000_000
    && |at| == |raws| + 1 && at[0] == 5 && at[|raws|] == |d|
    && forall i :: 0 <= i < |raws| ==> ServerBytes(d, at[i], raws[i], at[i + 1])
  }

  /** The server numbered `kept[r]` is returned in place `r`, in order, and the others have no address or no port. */
  ghost predicate Returned(raws: seq<RawServer>, servers: seq<Server>, kept: seq<nat>, dec: Decoders) {
    && |kept| == |servers| && (forall r :: 0 <= r < |kept| ==> kept[r] < |raws|)
    && (forall q, r :: 0 <= q < r < |kept| ==> kept[q] < kept[r])
    && (forall r :: 0 <= r < |kept| ==> ServerMeans(raws[kept[r]], servers[r], dec))
    && (forall i :: 0 <= i < |raws| ==> (i !in kept <==> raws[i].ip == [0, 0, 0, 0] || raws[i].port == 0))
  }

  lemma ReturnedSnoc(raws: seq<RawServer>, servers: seq<Server>, kept: seq<nat>, raw: RawServer, server: Server,
                     dec: Decoders)
    requires Returned(raws, servers, kept, dec) && ServerMeans(raw, server, dec)
    ensures if IsUsable(server) then Returned(raws + [raw], servers + [server], kept + [|raws|], dec)
            else Returned(raws + [raw], servers, kept, dec)
  {
    hide NameOf;
    var more := kept + [|raws|];
    assert forall i :: 0 <= i < |raws| ==> (i in more <==> i in kept);
    assert more[|kept|] == |raws|;
  }

  lemma {:induction false} UsableAre(raws: seq<RawServer>, all: seq<Server>, dec: Decoders) returns (kept: seq<nat>)
    requires |raws| == |all| && forall i :: 0 <= i < |all| ==> ServerMeans(raws[i], all[i], dec)
    ensures Returned(raws, Usable(all), kept, dec)
  {
    if all == [] {
      kept := [];
    } else {
      hide ServerMeans, Returned, IsUsable;
      var n := |all| - 1;
      kept := UsableAre(raws[..n], all[..n], dec);
      ReturnedSnoc(raws[..n], Usable(all[..n]), kept, raws[n], all[n], dec);
      assert raws == raws[..n] + [raws[n]];
      if IsUsable(all[n]) {
        kept := kept + [n];
      }
    }
  }

  /** What parsing returns of an accepted file, of any number of servers. */
  lemma ParsedServersMean(d: Bytes, dec: Decoders) returns (raws: seq<RawServer>, at: seq<nat>, kept: seq<nat>)
    requires ParseServers(d, dec).Ok?
    ensures ServersTile(d, raws, at) && Returned(raws, ParseServers(d, dec).value, kept, dec)
  {
    hide ServerAt, LayoutServer, Uint, ServerBytes, Returned, ServerMeans, Usable;
    UintIs(d, 0);
    UintIs(d, 1);
    var n := FourBytes(d, 1);
    var step := (w: nat) => ServerAt(d, w, dec);
    at := ManyAt(step, 5, n);
    var all := Many(step, 5, n).value.0;
    raws := [];
    for i := 0 to n
      invariant |raws| == i
      invariant forall k :: 0 <= k < i ==>
                  ServerBytes(d, at[k], raws[k], at[k + 1]) && ServerMeans(raws[k], all[k], dec)
    {
      assert ServerAt(d, at[i], dec) == step(at[i]) == Ok((all[i], at[i + 1]));
      ServerReadsLayout(d, at[i], dec);
      LayoutServerIs(d, at[i]);
      raws := raws + [LayoutServer(d, at[i]).value.0];
    }
    kept := UsableAre(raws, all, dec);
  }
}
