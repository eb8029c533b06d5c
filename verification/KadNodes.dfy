/** Reading Kad contacts from a nodes.dat payload, and picking bootstrap endpoints from them. */
module KadNodes {
  import opened Basics
  import opened Outcomes
  import opened Hex
  import opened MetFormat

  const ENTRY_BASIC := 25
  const MAX_CONTACTS := 500_000

  /** `ip` is in display order. */
  datatype Contact = Contact(ip: Bytes, udpPort: nat, tcpPort: nat)
  datatype Endpoint = Endpoint(ip: Bytes, udpPort: nat)

  /** `struct.unpack_from`: raises when the integer does not lie inside the data. */
  function Unpack(d: Bytes, p: nat, width: nat): Result<nat> {
    if p + width <= |d| then Ok(LittleEndian(d[p..p + width])) else Err(Truncated)
  }

  /** How many contacts the header announces and where they start; None for a header that is turned down. */
  datatype Header = Header(count: nat, offset: nat)

  method ReadHeader(d: Bytes) returns (r: Result<Option<Header>>)
    ensures r == HeaderOf(d)
  {
    if |d| < 8 {
      return Ok(None);
    }
    var offset := 0;
    var first := LittleEndian(d[offset..offset + 4]);
    offset := offset + 4;
    var count := first;
    if first == 0 {
      var version := LittleEndian(d[offset..offset + 4]);
      offset := offset + 4;
      if version == 3 {
        offset := offset + 4;
      } else if version != 2 {
        return Ok(None);
      }
      count :- Unpack(d, offset, 4);
      offset := offset + 4;
    } else if first == 2 || first == 3 {
      if first == 3 {
        offset := offset + 4;
      }
      count :- Unpack(d, offset, 4);
      offset := offset + 4;
    }
    return Ok(Some(Header(count, offset)));
  }

  function Word(d: Bytes, i: nat): nat
    requires 4 * i + 4 <= |d|
  {
    LittleEndian(d[4 * i..4 * i + 4])
  }

  /** The header told by its words: a zero, a version, and a count after an edition word in version 3. */
  function HeaderOf(d: Bytes): Result<Option<Header>> {
    if |d| < 8 then Ok(None)
    else if Word(d, 0) == 0 then
      if Word(d, 1) == 2 then HeaderAt(d, 2)
      else if Word(d, 1) == 3 then HeaderAt(d, 3)
      else Ok(None)
    else if Word(d, 0) == 2 then HeaderAt(d, 1)
    else if Word(d, 0) == 3 then HeaderAt(d, 2)
    else Ok(Some(Header(Word(d, 0), 4)))
  }

  function HeaderAt(d: Bytes, word: nat): Result<Option<Header>> {
    if 4 * word + 4 <= |d| then Ok(Some(Header(Word(d, word), 4 * word + 4))) else Err(Truncated)
  }

  // ---------------------------------------------------------------- contacts

  function Reversed(b: Bytes): (r: Bytes)
    ensures |r| == |b| && forall i :: 0 <= i < |b| ==> r[i] == b[|b| - 1 - i]
  {
    if b == [] then [] else Reversed(b[1..]) + [b[0]]
  }

  /** The contact in the record that starts at `p`. */
  function ContactAt(d: Bytes, p: nat): Contact
    requires p + ENTRY_BASIC <= |d|
  {
    Contact(Reversed(d[p + 16..p + 20]), LittleEndian(d[p + 20..p + 22]), LittleEndian(d[p + 22..p + 24]))
  }

  predicate IsRoutable(c: Contact, isPublic: Bytes -> bool) {
    c.ip != [0, 0, 0, 0] && c.udpPort != 0 && isPublic(c.ip)
  }

  /** Exactly `n` records of `size` bytes lie inside the data. */
  predicate RecordsFit(d: Bytes, start: nat, size: nat, n: nat) {
    size >= ENTRY_BASIC && start + n * size <= |d|
  }

  /** The routable contacts among the first `n` records, in order. */
  function RoutableContacts(d: Bytes, start: nat, size: nat, n: nat, isPublic: Bytes -> bool): seq<Contact>
    requires RecordsFit(d, start, size, n)
  {
    if n == 0 then []
    else
      RecordInside(d, start, size, n, n - 1);
      var c := ContactAt(d, start + (n - 1) * size);
      RoutableContacts(d, start, size, n - 1, isPublic) + if IsRoutable(c, isPublic) then [c] else []
  }

  lemma RecordInside(d: Bytes, start: nat, size: nat, n: nat, i: nat)
    requires RecordsFit(d, start, size, n) && i < n
    ensures start + i * size + size <= |d| && RecordsFit(d, start, size, i)
  {
    assert (i + 1) * size <= n * size by { TimesMonotone(i + 1, n, size); }
    assert (i + 1) * size == i * size + size;
  }

  lemma {:induction false} LittleEndianZero(b: Bytes)
    ensures LittleEndian(b) == 0 <==> forall i :: 0 <= i < |b| ==> b[i] == 0
  {
    if b != [] {
      LittleEndianZero(b[1..]);
      assert forall i :: 0 < i < |b| ==> b[i] == b[1..][i - 1];
      if forall i :: 0 <= i < |b[1..]| ==> b[1..][i] == 0 {
        assert forall i :: 0 < i < |b| ==> b[i] == 0;
      }
    }
  }

  /** A zero address is a zero word, in either byte order. */
  lemma ZeroAddress(b: Bytes)
    requires |b| == 4
    ensures LittleEndian(b) == 0 <==> Reversed(b) == [0, 0, 0, 0]
  {
    hide LittleEndian, Reversed;
    LittleEndianZero(b);
    var r := Reversed(b);
    assert r[0] == b[3] && r[1] == b[2] && r[2] == b[1] && r[3] == b[0];
  }

  /**
   The record size is the floor of what remains over the count: that many records fit, with less than one byte each
   to spare.
   */
  lemma StrideIsExact(remaining: nat, count: nat)
    requires count > 0
    ensures var size := remaining / count;
            count * size <= remaining < count * size + count
  {
    assert remaining == count * (remaining / count) + remaining % count;
  }

  /** What a payload holds: nothing, or as many records as its header says. */
  function Contacts(d: Bytes, isPublic: Bytes -> bool): Result<seq<Contact>> {
    var header :- HeaderOf(d);
    match header
    case None => Ok([])
    case Some(h) =>
      if h.count == 0 || h.count > MAX_CONTACTS then Ok([])
      else
        var size := (|d| - h.offset) / h.count;
        if size < ENTRY_BASIC then Ok([])
        else
          StrideIsExact(|d| - h.offset, h.count);
          Ok(RoutableContacts(d, h.offset, size, h.count, isPublic))
  }

  lemma HeaderInside(d: Bytes)
    ensures HeaderOf(d).Ok? && HeaderOf(d).value.Some? ==> HeaderOf(d).value.value.offset <= |d|
  {
  }

  /** Parses a nodes.dat payload into its public, routable contacts. */
  method ParseNodesDat(d: Bytes, isPublic: Bytes -> bool) returns (r: Result<seq<Contact>>)
    ensures r == Contacts(d, isPublic)
  {
    var header :- ReadHeader(d);
    if header.None? {
      return Ok([]);
    }
    var count, offset := header.value.count, header.value.offset;
    if count == 0 || count > MAX_CONTACTS {
      return Ok([]);
    }
    var remaining := |d| - offset;
    var entrySize := remaining / count;
    if entrySize < ENTRY_BASIC {
      return Ok([]);
    }
    StrideIsExact(remaining, count);
    var contacts := ReadContacts(d, offset, entrySize, count, isPublic);
    return Ok(contacts);
  }

  /** Reads `count` records; every read lies inside the data, so none of them can raise or stop the loop. */
  method ReadContacts(d: Bytes, start: nat, entrySize: nat, count: nat, isPublic: Bytes -> bool)
    returns (contacts: seq<Contact>)
    requires RecordsFit(d, start, entrySize, count)
    ensures contacts == RoutableContacts(d, start, entrySize, count, isPublic)
  {
    hide LittleEndian;
    var offset := start;
    contacts := [];
    for i := 0 to count
      invariant offset == start + i * entrySize && RecordsFit(d, start, entrySize, i)
      invariant contacts == RoutableContacts(d, start, entrySize, i, isPublic)
    {
      RecordInside(d, start, entrySize, count, i);
      NextRecord(d, start, entrySize, i, isPublic);
      if offset + entrySize > |d| {
        assert false;
        break;
      }
      var ipLe := LittleEndian(d[offset + 16..offset + 20]);
      var udpPort := LittleEndian(d[offset + 20..offset + 22]);
      var tcpPort := LittleEndian(d[offset + 22..offset + 24]);
      var ip := Reversed(d[offset + 16..offset + 20]);
      ZeroAddress(d[offset + 16..offset + 20]);
      offset := offset + entrySize;
      if ipLe == 0 || udpPort == 0 {
        continue;
      }
      if !isPublic(ip) {
        continue;
      }
      contacts := contacts + [Contact(ip, udpPort, tcpPort)];
    }
  }

  lemma NextRecord(d: Bytes, start: nat, size: nat, i: nat, isPublic: Bytes -> bool)
    requires size >= ENTRY_BASIC && start + i * size + size <= |d|
    ensures RecordsFit(d, start, size, i) && RecordsFit(d, start, size, i + 1)
    ensures start + (i + 1) * size == start + i * size + size
    ensures var c := ContactAt(d, start + i * size);
            RoutableContacts(d, start, size, i + 1, isPublic)
            == if IsRoutable(c, isPublic) then RoutableContacts(d, start, size, i, isPublic) + [c]
               else RoutableContacts(d, start, size, i, isPublic)
  {
    hide ContactAt, IsRoutable;
    assert (i + 1) * size == i * size + size;
  }

  /** Parsing raises exactly when the payload ends before the count that its header calls for. */
  lemma RaisesIff(d: Bytes, isPublic: Bytes -> bool)
    ensures Contacts(d, isPublic).Err? <==>
            && |d| >= 8
            && ((Word(d, 0) == 0 && Word(d, 1) == 2 && |d| < 12)
                || (Word(d, 0) == 0 && Word(d, 1) == 3 && |d| < 16)
                || (Word(d, 0) == 3 && |d| < 12))
  {
    hide Word, RoutableContacts;
  }

  /** Behind any header that announces contacts, the records fill the payload but for less than one byte each. */
  lemma LeftoverIsSmall(d: Bytes)
    requires HeaderOf(d).Ok? && HeaderOf(d).value.Some? && HeaderOf(d).value.value.count > 0
    ensures var h := HeaderOf(d).value.value; var size := (|d| - h.offset) / h.count;
            h.offset + h.count * size <= |d| < h.offset + h.count * size + h.count
  {
    HeaderInside(d);
    StrideIsExact(|d| - HeaderOf(d).value.value.offset, HeaderOf(d).value.value.count);
  }

  // ---------------------------------------------------------------- told of the bytes

  /** What a header announces: a count, and the position of the records behind it. */
  lemma HeaderMeans(d: Bytes)
    ensures |d| < 8 ==> HeaderOf(d) == Ok(None)
    ensures |d| >= 8 ==>
              var (first, second) := (FourBytes(d, 0), FourBytes(d, 4));
              && (first == 0 && second == 2 && |d| >= 12 ==> HeaderOf(d) == Ok(Some(Header(FourBytes(d, 8), 12))))
              && (first == 0 && second == 3 && |d| >= 16 ==> HeaderOf(d) == Ok(Some(Header(FourBytes(d, 12), 16))))
              && (first == 0 && second != 2 && second != 3 ==> HeaderOf(d) == Ok(None))
              && (first == 2 ==> HeaderOf(d) == Ok(Some(Header(second, 8))))
              && (first == 3 && |d| >= 12 ==> HeaderOf(d) == Ok(Some(Header(FourBytes(d, 8), 12))))
              && (first !in {0, 2, 3} ==> HeaderOf(d) == Ok(Some(Header(first, 4))))
  {
    hide LittleEndian, FourBytes;
    forall i: nat | 4 * i + 4 <= |d|
      ensures Word(d, i) == FourBytes(d, 4 * i)
    {
      WordIs(d, i);
    }
  }

  lemma WordIs(d: Bytes, i: nat)
    requires 4 * i + 4 <= |d|
    ensures Word(d, i) == FourBytes(d, 4 * i)
  {
    hide LittleEndian;
    LittleEndianIs(d[4 * i..4 * i + 4]);
  }

  /** The contact of the record at `p`: the address is stored backwards, then come the UDP port and the TCP port. */
  ghost predicate HoldsContact(d: Bytes, p: nat, c: Contact) {
    && p + 24 <= |d| && c.ip == [d[p + 19], d[p + 18], d[p + 17], d[p + 16]]
    && c.udpPort == d[p + 20] as nat + 256 * d[p + 21] as nat
    && c.tcpPort == d[p + 22] as nat + 256 * d[p + 23] as nat
  }

  lemma ContactAtHolds(d: Bytes, p: nat)
    requires p + ENTRY_BASIC <= |d|
    ensures HoldsContact(d, p, ContactAt(d, p))
  {
    hide LittleEndian, Reversed;
    LittleEndianIs(d[p + 20..p + 22]);
    LittleEndianIs(d[p + 22..p + 24]);
    assert d[p + 16..p + 20] == [d[p + 16], d[p + 17], d[p + 18], d[p + 19]];
  }

  /** A record is passed over for a zero address, a zero UDP port, or an address that is not public. */
  ghost predicate IsPassedOver(d: Bytes, p: nat, isPublic: Bytes -> bool) {
    && p + 24 <= |d|
    && ((d[p + 16] == 0 && d[p + 17] == 0 && d[p + 18] == 0 && d[p + 19] == 0)
        || (d[p + 20] == 0 && d[p + 21] == 0)
        || !isPublic([d[p + 19], d[p + 18], d[p + 17], d[p + 16]]))
  }

  /** Where record number `i` starts. */
  function RecordStart(start: nat, size: nat, i: nat): nat {
    start + i * size
  }

  /** Contact number `r` is that of record number `at[r]`, in order, and every other record is passed over. */
  ghost predicate ContactsOf(d: Bytes, start: nat, size: nat, n: nat, isPublic: Bytes -> bool, contacts: seq<Contact>,
                             at: seq<nat>)
  {
    && |at| == |contacts| && (forall r :: 0 <= r < |at| ==> at[r] < n)
    && (forall q, r :: 0 <= q < r < |at| ==> at[q] < at[r])
    && (forall r :: 0 <= r < |at| ==> HoldsContact(d, RecordStart(start, size, at[r]), contacts[r]))
    && (forall i: nat :: i < n ==> (i !in at <==> IsPassedOver(d, RecordStart(start, size, i), isPublic)))
  }

  lemma OneMoreRecord(d: Bytes, start: nat, size: nat, n: nat, isPublic: Bytes -> bool, contacts: seq<Contact>,
                      at: seq<nat>)
    requires ContactsOf(d, start, size, n, isPublic, contacts, at)
    requires RecordStart(start, size, n) + ENTRY_BASIC <= |d|
    ensures var c := ContactAt(d, RecordStart(start, size, n));
            if IsRoutable(c, isPublic) then
              ContactsOf(d, start, size, n + 1, isPublic, contacts + [c], at + [n])
            else ContactsOf(d, start, size, n + 1, isPublic, contacts, at)
  {
    hide RecordStart, HoldsContact, IsPassedOver, ContactAt, IsRoutable;
    PassedOverIff(d, RecordStart(start, size, n), isPublic);
    ContactAtHolds(d, RecordStart(start, size, n));
    var more := at + [n];
    assert forall i: nat :: i < n ==> (i in more <==> i in at);
    assert more[|at|] == n;
  }

  lemma RoutableStep(d: Bytes, start: nat, size: nat, n: nat, isPublic: Bytes -> bool)
    requires n > 0 && RecordsFit(d, start, size, n)
    ensures RecordsFit(d, start, size, n - 1) && RecordStart(start, size, n - 1) + ENTRY_BASIC <= |d|
    ensures var c := ContactAt(d, RecordStart(start, size, n - 1));
            RoutableContacts(d, start, size, n, isPublic)
            == RoutableContacts(d, start, size, n - 1, isPublic) + if IsRoutable(c, isPublic) then [c] else []
  {
    hide ContactAt, IsRoutable;
    RecordInside(d, start, size, n, n - 1);
  }

  lemma PassedOverIff(d: Bytes, p: nat, isPublic: Bytes -> bool)
    requires p + ENTRY_BASIC <= |d|
    ensures IsPassedOver(d, p, isPublic) <==> !IsRoutable(ContactAt(d, p), isPublic)
  {
    hide ContactAt;
    ContactAtHolds(d, p);
  }

  /** The contacts of a payload's records, told of their bytes. */
  lemma {:induction false} RoutableContactsAre(d: Bytes, start: nat, size: nat, n: nat, isPublic: Bytes -> bool)
    returns (at: seq<nat>)
    requires RecordsFit(d, start, size, n)
    ensures ContactsOf(d, start, size, n, isPublic, RoutableContacts(d, start, size, n, isPublic), at)
  {
    hide *;
    if n == 0 {
      at := [];
      NoRecords(d, start, size, isPublic);
    } else {
      RoutableStep(d, start, size, n, isPublic);
      var before := RoutableContactsAre(d, start, size, n - 1, isPublic);
      var some := RoutableContacts(d, start, size, n - 1, isPublic);
      OneMoreRecord(d, start, size, n - 1, isPublic, some, before);
      at := if IsRoutable(ContactAt(d, RecordStart(start, size, n - 1)), isPublic) then before + [n - 1] else before;
      assert some + [] == some;
    }
  }

  lemma NoRecords(d: Bytes, start: nat, size: nat, isPublic: Bytes -> bool)
    requires RecordsFit(d, start, size, 0)
    ensures ContactsOf(d, start, size, 0, isPublic, RoutableContacts(d, start, size, 0, isPublic), [])
  {
  }

  /** The records behind a header of one to 500000 contacts, each of 25 bytes at least; otherwise there are none. */
  lemma ContactsMean(d: Bytes, isPublic: Bytes -> bool) returns (at: seq<nat>)
    requires HeaderOf(d).Ok?
    ensures Contacts(d, isPublic).Ok?
    ensures HeaderOf(d).value.None? ==> Contacts(d, isPublic).value == []
    ensures HeaderOf(d).value.Some? ==>
              var h := HeaderOf(d).value.value;
              if h.count == 0 || h.count > 500000 || (|d| - h.offset) / h.count < 25 then
                Contacts(d, isPublic).value == []
              else
                ContactsOf(d, h.offset, (|d| - h.offset) / h.count, h.count, isPublic, Contacts(d, isPublic).value, at)
  {
    hide RoutableContacts, ContactsOf;
    HeaderInside(d);
    at := [];
    if HeaderOf(d).value.Some? {
      var h := HeaderOf(d).value.value;
      if 0 < h.count <= 500000 && (|d| - h.offset) / h.count >= 25 {
        StrideIsExact(|d| - h.offset, h.count);
        at := RoutableContactsAre(d, h.offset, (|d| - h.offset) / h.count, h.count, isPublic);
      }
    }
  }

  // ---------------------------------------------------------------- endpoints

  function EndpointOf(c: Contact): Endpoint {
    Endpoint(c.ip, c.udpPort)
  }

  /** The distinct endpoints, each where it first appears. */
  function DistinctEndpoints(contacts: seq<Contact>): seq<Endpoint> {
    if contacts == [] then []
    else
      var init, e := DistinctEndpoints(contacts[..|contacts| - 1]), EndpointOf(contacts[|contacts| - 1]);
      if e in init then init else init + [e]
  }

  /** The first `limit` distinct endpoints; a limit below one still lets the first one through. */
  method FirstEndpoints(contacts: seq<Contact>, limit: int) returns (endpoints: seq<Endpoint>)
    ensures endpoints == Upto(DistinctEndpoints(contacts), if limit < 1 then 1 else limit)
  {
    var seen: set<Endpoint> := {};
    endpoints := [];
    for i := 0 to |contacts|
      invariant endpoints == DistinctEndpoints(contacts[..i]) && forall e :: e in seen <==> e in endpoints
      invariant endpoints != [] ==> |endpoints| < limit
    {
      assert contacts[..i + 1][..i] == contacts[..i];
      var endpoint := EndpointOf(contacts[i]);
      if endpoint in seen {
        continue;
      }
      seen := seen + {endpoint};
      endpoints := endpoints + [endpoint];
      if |endpoints| >= limit {
        DistinctGrows(contacts, i + 1);
        return;
      }
    }
    assert contacts[..|contacts|] == contacts;
  }

  /** Parses a payload and returns its bootstrap endpoints without repeats. */
  method BootstrapEndpoints(d: Bytes, limit: int, isPublic: Bytes -> bool) returns (r: Result<seq<Endpoint>>)
    ensures match Contacts(d, isPublic)
            case Err(_) => r.Err?
            case Ok(contacts) => r == Ok(Upto(DistinctEndpoints(contacts), if limit < 1 then 1 else limit))
  {
    hide Contacts, Distinct;
    var contacts :- ParseNodesDat(d, isPublic);
    var endpoints := FirstEndpoints(contacts, limit);
    return Ok(endpoints);
  }

  lemma {:induction false} DistinctGrows(contacts: seq<Contact>, n: nat)
    requires n <= |contacts|
    ensures DistinctEndpoints(contacts[..n]) <= DistinctEndpoints(contacts)
    decreases |contacts| - n
  {
    if n < |contacts| {
      DistinctGrows(contacts, n + 1);
      assert contacts[..n + 1][..n] == contacts[..n];
    } else {
      assert contacts[..n] == contacts;
    }
  }

  /** Some contact has the address and the UDP port. */
  predicate Appears(contacts: seq<Contact>, e: Endpoint) {
    exists k :: 0 <= k < |contacts| && contacts[k].ip == e.ip && contacts[k].udpPort == e.udpPort
  }

  lemma AppearsSnoc(contacts: seq<Contact>, c: Contact, e: Endpoint)
    ensures Appears(contacts + [c], e) <==> Appears(contacts, e) || EndpointOf(c) == e
  {
    assert (contacts + [c])[|contacts|] == c;
    if Appears(contacts, e) {
      var k :| 0 <= k < |contacts| && contacts[k].ip == e.ip && contacts[k].udpPort == e.udpPort;
      assert (contacts + [c])[k] == contacts[k];
    }
  }

  /** No endpoint repeats, and the endpoints are those of the contacts. */
  lemma {:induction false} DistinctMeans(contacts: seq<Contact>)
    ensures forall i, j :: 0 <= i < j < |DistinctEndpoints(contacts)| ==>
              DistinctEndpoints(contacts)[i] != DistinctEndpoints(contacts)[j]
    ensures forall e :: e in DistinctEndpoints(contacts) <==> Appears(contacts, e)
  {
    if contacts != [] {
      var n := |contacts| - 1;
      DistinctMeans(contacts[..n]);
      assert contacts == contacts[..n] + [contacts[n]];
      forall e: Endpoint
        ensures Appears(contacts, e) <==> Appears(contacts[..n], e) || EndpointOf(contacts[n]) == e
      {
        AppearsSnoc(contacts[..n], contacts[n], e);
      }
    }
  }

  /** The place of the first contact with an endpoint. */
  function FirstPlace(contacts: seq<Contact>, e: Endpoint): nat {
    if contacts == [] || EndpointOf(contacts[0]) == e then 0 else 1 + FirstPlace(contacts[1..], e)
  }

  lemma {:induction false} FirstPlaceSnoc(contacts: seq<Contact>, c: Contact, e: Endpoint)
    ensures FirstPlace(contacts, e) <= |contacts|
    ensures FirstPlace(contacts, e) < |contacts| <==> Appears(contacts, e)
    ensures FirstPlace(contacts + [c], e)
         == if FirstPlace(contacts, e) < |contacts| || EndpointOf(c) == e then FirstPlace(contacts, e)
            else |contacts| + 1
  {
    if contacts == [] {
      assert FirstPlace([c][1..], e) == 0;
    } else if EndpointOf(contacts[0]) != e {
      assert (contacts + [c])[1..] == contacts[1..] + [c];
      FirstPlaceSnoc(contacts[1..], c, e);
      assert forall k :: 0 < k < |contacts| ==> contacts[k] == contacts[1..][k - 1];
      if Appears(contacts[1..], e) {
        var k :| 0 <= k < |contacts[1..]| && contacts[1..][k].ip == e.ip && contacts[1..][k].udpPort == e.udpPort;
        assert EndpointOf(contacts[k + 1]) == e;
      }
    }
  }

  /** The endpoints come in the order of first appearance. */
  lemma {:induction false} DistinctInFirstOrder(contacts: seq<Contact>)
    ensures var es := DistinctEndpoints(contacts);
            forall i, j :: 0 <= i < j < |es| ==> FirstPlace(contacts, es[i]) < FirstPlace(contacts, es[j])
  {
    if contacts != [] {
      var n := |contacts| - 1;
      var init, c := contacts[..n], contacts[n];
      assert contacts == init + [c];
      DistinctInFirstOrder(init);
      DistinctMeans(init);
      var es := DistinctEndpoints(contacts);
      forall i, j | 0 <= i < j < |es|
        ensures FirstPlace(contacts, es[i]) < FirstPlace(contacts, es[j])
      {
        FirstPlaceSnoc(init, c, es[i]);
        FirstPlaceSnoc(init, c, es[j]);
        assert es[i] == DistinctEndpoints(init)[i] && es[i] in DistinctEndpoints(init);
        if j < |DistinctEndpoints(init)| {
          assert es[j] == DistinctEndpoints(init)[j] && es[j] in DistinctEndpoints(init);
        }
      }
    }
  }
}
