/** Writing a single-server server.met file, and reading server.met files. */
module ServerMet {
  import opened Outcomes
  import opened Hex
  import opened MetFormat
  import opened KnownMetImport

  const SERVER_MET_HEADER := 0x0E
  const SERVER_MET_HEADER_LARGEFILES := 0xE0
  const ST_SERVERNAME := 0x01

  datatype Server = Server(address: Bytes, port: nat, name: string)

  // ---------------------------------------------------------------- writing

  function Pow256(width: nat): nat {
    if width == 0 then 1 else 256 * Pow256(width - 1)
  }

  /** `struct.pack` with a little-endian unsigned integer of `width` bytes. */
  function Packed(n: nat, width: nat): (b: Bytes)
    ensures |b| == width
  {
    if width == 0 then [] else [n % 256] + Packed(n / 256, width - 1)
  }

  lemma {:induction false} LittleEndianPacked(n: nat, width: nat)
    requires n < Pow256(width)
    ensures LittleEndian(Packed(n, width)) == n
  {
    if width > 0 {
      LittleEndianPacked(n / 256, width - 1);
      assert Packed(n, width)[1..] == Packed(n / 256, width - 1);
    }
  }

  predicate IsIpv4(octets: seq<int>) {
    |octets| == 4 && forall i :: 0 <= i < 4 ==> 0 <= octets[i] < 256
  }

  /** Builds a server.met file that points at one server; `octets` are the numbers of the dotted address. */
  method BuildServerMet(octets: seq<int>, port: int, nameBytes: Bytes) returns (r: Result<Bytes>)
    ensures r.Ok? <==> IsIpv4(octets) && 0 <= port < 0x1_0000 && |nameBytes| < 0x1_0000
    ensures r.Ok? ==> r.value == ServerMetFile(octets, port, nameBytes)
  {
    if |octets| != 4 || exists i :: 0 <= i < |octets| && !(0 <= octets[i] < 256) {
      return Err(OutOfRange);
    }
    var out: Bytes := [];
    out := out + [0x0E];
    out := out + Packed(1, 4);
    out := out + octets;
    if !(0 <= port < 0x1_0000) {
      return Err(OutOfRange);
    }
    out := out + Packed(port, 2);
    out := out + Packed(1, 4);
    out := out + [0x82];
    out := out + [0x01];
    if |nameBytes| >= 0x1_0000 {
      return Err(OutOfRange);
    }
    out := out + Packed(|nameBytes|, 2);
    out := out + nameBytes;
    return Ok(out);
  }

  /** The bytes of the file, field by field. */
  function ServerMetFile(octets: seq<int>, port: nat, nameBytes: Bytes): Bytes
    requires IsIpv4(octets)
  {
    [0x0E] + Packed(1, 4) + octets + Packed(port, 2) + Packed(1, 4) + [0x82] + [0x01]
    + Packed(|nameBytes|, 2) + nameBytes
  }

  // ---------------------------------------------------------------- reading

  /** The text of the last server-name tag; empty when there is none. */
  function LastName(tags: seq<Tag>): string {
    if tags == [] then ""
    else
      var tag := tags[|tags| - 1];
      if tag.name == Id(ST_SERVERNAME) && tag.value.TextValue? then tag.value.text
      else LastName(tags[..|tags| - 1])
  }

  function ServerAt(d: Bytes, p: nat, dec: Decoders): Read<Server> {
    var (ip, q) :- Take(d, p, 4);
    var (port, r) :- Uint(d, q, 2);
    var (tagCount, s) :- Uint(d, r, 4);
    var (tags, t) :- Many((w: nat) => ReadTag(d, w, dec), s, tagCount);
    Ok((Server(ip, port, LastName(tags)), t))
  }

  predicate IsUsable(server: Server) {
    server.address != [0, 0, 0, 0] && server.port != 0
  }

  function Usable(servers: seq<Server>): seq<Server> {
    if servers == [] then []
    else
      var s := servers[|servers| - 1];
      if IsUsable(s) then Usable(servers[..|servers| - 1]) + [s] else Usable(servers[..|servers| - 1])
  }

  function ParseServers(d: Bytes, dec: Decoders): Result<seq<Server>> {
    var (version, p) :- Uint(d, 0, 1);
    if version != SERVER_MET_HEADER && version != SERVER_MET_HEADER_LARGEFILES then Err(BadHeader)
    else
      var (count, q) :- Uint(d, p, 4);
      if count > 1_000_000 then Err(ImplausibleCount)
      else
        var (servers, r) :- Many((w: nat) => ServerAt(d, w, dec), q, count);
        if r != |d| then Err(TrailingBytes) else Ok(Usable(servers))
  }

  /** Reads the tags of one server and keeps the last name. */
  method ReadServerName(reader: BinaryReader, tagCount: nat, dec: Decoders) returns (r: Result<string>)
    modifies reader`pos
    ensures match Many((w: nat) => ReadTag(reader.data, w, dec), old(reader.pos), tagCount)
            case Ok((tags, q)) => r == Ok(LastName(tags)) && reader.pos == q
            case Err(_) => r.Err?
  {
    hide ReadTag;
    var name := "";
    ghost var tags: seq<Tag> := [];
    ghost var step := (w: nat) => ReadTag(reader.data, w, dec);
    for i := 0 to tagCount
      invariant Many(step, old(reader.pos), i) == Ok((tags, reader.pos)) && name == LastName(tags)
    {
      var tag := reader.ReadOneTag(dec);
      if tag.Err? {
        ManyStaysBroken(step, old(reader.pos), i + 1, tagCount);
        return Err(tag.fault);
      }
      if tag.value.name == Id(ST_SERVERNAME) && tag.value.value.TextValue? {
        name := tag.value.value.text;
      }
      assert (tags + [tag.value])[..|tags|] == tags;
      tags := tags + [tag.value];
    }
    return Ok(name);
  }

  method ReadServer(reader: BinaryReader, dec: Decoders) returns (r: Result<Server>)
    modifies reader`pos
    ensures Did(ServerAt(reader.data, old(reader.pos), dec), r, reader.pos)
  {
    var ip :- reader.Read(4);
    var port :- reader.ReadUint(2);
    var tagCount :- reader.ReadUint(4);
    var name :- ReadServerName(reader, tagCount, dec);
    return Ok(Server(ip, port, name));
  }

  /** Parses a server.met file into the servers that have an address and a port. */
  method ParseServerMet(d: Bytes, dec: Decoders) returns (r: Result<seq<Server>>)
    ensures r.Ok? <==> ParseServers(d, dec).Ok?
    ensures r.Ok? ==> r == ParseServers(d, dec)
  {
    hide ServerAt, LittleEndian;
    var reader := new BinaryReader(d);
    var version :- reader.ReadUint(1);
    if version != SERVER_MET_HEADER && version != SERVER_MET_HEADER_LARGEFILES {
      return Err(BadHeader);
    }
    var count :- reader.ReadUint(4);
    if count > 1_000_000 {
      return Err(ImplausibleCount);
    }
    var servers: seq<Server> := [];
    ghost var all: seq<Server> := [];
    ghost var step := (w: nat) => ServerAt(d, w, dec);
    ghost var start := reader.pos;
    for i := 0 to count
      invariant Many(step, start, i) == Ok((all, reader.pos)) && servers == Usable(all)
    {
      var server := ReadServer(reader, dec);
      if server.Err? {
        ManyStaysBroken(step, start, i + 1, count);
        return Err(server.fault);
      }
      ghost var before := all;
      all := all + [server.value];
      assert all[..|all| - 1] == before;
      if !IsUsable(server.value) {
        continue;
      }
      servers := servers + [server.value];
    }
    if reader.Remaining() != 0 {
      return Err(TrailingBytes);
    }
    return Ok(servers);
  }

  // ---------------------------------------------------------------- the round trip

  lemma UintAt(d: Bytes, p: nat, width: nat, n: nat)
    requires p + width <= |d| && d[p..p + width] == Packed(n, width) && n < Pow256(width)
    ensures Uint(d, p, width) == Ok((n, p + width))
  {
    LittleEndianPacked(n, width);
  }

  lemma ManyOne<T>(step: nat -> Read<T>, p: nat)
    requires step(p).Ok?
    ensures Many(step, p, 1) == Ok(([step(p).value.0], step(p).value.1))
  {
    var none := Many(step, p, 0);
    assert none == Ok(([], p));
    var (items, q) := none.value;
    assert items + [step(q).value.0] == [step(p).value.0];
  }

  /** The one tag of a written file. */
  lemma NameTagReads(octets: seq<int>, port: nat, nameBytes: Bytes, dec: Decoders)
    requires IsIpv4(octets) && port < 0x1_0000 && |nameBytes| < 0x1_0000
    ensures var d := ServerMetFile(octets, port, nameBytes);
            match DecodeString(nameBytes, dec)
            case Some(name) => ReadTag(d, 15, dec) == Ok((Tag(Id(ST_SERVERNAME), TextValue(name)), |d|))
            case None => ReadTag(d, 15, dec).Err?
  {
    hide DecodeString, Packed, LittleEndian;
    var d := ServerMetFile(octets, port, nameBytes);
    assert Packed(0x82, 1) == [0x82] && Packed(0x01, 1) == [0x01] by { PackedByte(0x82); PackedByte(0x01); }
    assert |d| == 19 + |nameBytes|;
    assert d[15..16] == [0x82] && d[16..17] == [0x01] && d[17..19] == Packed(|nameBytes|, 2) && d[19..] == nameBytes;
    assert d[19..19 + |nameBytes|] == nameBytes;
    UintAt(d, 15, 1, 0x82);
    UintAt(d, 16, 1, 0x01);
    UintAt(d, 17, 2, |nameBytes|);
  }

  lemma PackedByte(n: nat)
    requires n < 256
    ensures Packed(n, 1) == [n]
  {
    assert Packed(n / 256, 0) == [];
  }

  /**
   Reading a written file gives the one server back, with its address, port and name and nothing left over;
   a zero address or port gives no server, and a name that does not decode raises.
   */
  lemma ParseWhatWasBuilt(octets: seq<int>, port: nat, nameBytes: Bytes, dec: Decoders)
    requires IsIpv4(octets) && port < 0x1_0000 && |nameBytes| < 0x1_0000
    ensures var parsed := ParseServers(ServerMetFile(octets, port, nameBytes), dec);
            match DecodeString(nameBytes, dec)
            case Some(name) =>
              parsed == Ok(if octets != [0, 0, 0, 0] && port != 0 then [Server(octets, port, name)] else [])
            case None => parsed.Err?
  {
    hide DecodeString, Packed, LittleEndian, ReadTag;
    var d := ServerMetFile(octets, port, nameBytes);
    assert Packed(0x0E, 1) == [0x0E] by { PackedByte(0x0E); }
    assert d[0..1] == [0x0E] && d[1..5] == Packed(1, 4) && d[5..9] == octets;
    assert d[9..11] == Packed(port, 2) && d[11..15] == Packed(1, 4);
    UintAt(d, 0, 1, 0x0E);
    UintAt(d, 1, 4, 1);
    UintAt(d, 9, 2, port);
    UintAt(d, 11, 4, 1);
    NameTagReads(octets, port, nameBytes, dec);
    var tags := (w: nat) => ReadTag(d, w, dec);
    var servers := (w: nat) => ServerAt(d, w, dec);
    if DecodeString(nameBytes, dec).Some? {
      var name := DecodeString(nameBytes, dec).value;
      ManyOne(tags, 15);
      var tag := Tag(Id(ST_SERVERNAME), TextValue(name));
      assert LastName([tag]) == name;
      assert servers(5) == Ok((Server(octets, port, name), |d|));
      ManyOne(servers, 5);
      assert Usable([Server(octets, port, name)][..0]) == [];
    } else {
      assert Many(tags, 15, 0) == Ok(([], 15));
      assert Many(tags, 15, 1).Err?;
      assert servers(5).Err?;
      assert Many(servers, 5, 0) == Ok(([], 5));
    }
  }

  // ---------------------------------------------------------------- ASCII names

  predicate IsAscii(name: string) {
    forall i :: 0 <= i < |name| ==> name[i] as int < 128
  }

  function AsciiBytes(name: string): (b: Bytes)
    requires IsAscii(name)
    ensures |b| == |name| && forall i :: 0 <= i < |b| ==> b[i] == name[i] as int
  {
    seq(|name|, i requires 0 <= i < |name| => name[i] as int)
  }

  /** Every ANSI code page reads ASCII as itself. */
  ghost predicate KeepsAscii(dec: Decoders) {
    forall name :: IsAscii(name) ==> dec.ansi(AsciiBytes(name)) == name
  }

  lemma AsciiRoundTrip(octets: seq<int>, port: nat, name: string, dec: Decoders)
    requires IsIpv4(octets) && octets != [0, 0, 0, 0] && 0 < port < 0x1_0000
    requires IsAscii(name) && |name| < 0x1_0000 && KeepsAscii(dec)
    ensures ParseServers(ServerMetFile(octets, port, AsciiBytes(name)), dec) == Ok([Server(octets, port, name)])
  {
    var b := AsciiBytes(name);
    assert |b| > 0 ==> b[0] != 0xEF;
    ParseWhatWasBuilt(octets, port, b, dec);
  }
}
