/** Whether the Rust client's events carry every body key that the oracle (the MFC client) puts on them. */
module Conformance {
  import opened Outcomes

  datatype Value = Null | Text(s: string) | Other

  /** A family or event that is not a string is `None`; a body that is not an object has no keys. */
  datatype Record = Record(family: Option<string>, event: Option<string>, body: map<string, Value>)

  datatype EventKey = EventKey(family: string, event: string)

  /** What one trace says of one event: the body keys seen, and how often it was emitted. */
  datatype Slot = Slot(keys: set<string>, count: nat)

  datatype Presence = Both | RustOnly | MfcOnly

  datatype Row = Row(key: EventKey, presence: Presence, rustCount: nat, mfcCount: nat, bodyOk: bool,
                     shared: set<string>, onlyRust: set<string>, onlyMfc: set<string>)

  datatype Violation = Violation(key: EventKey, missing: set<string>)

  datatype Audit = Audit(ok: bool, rows: seq<Row>, conformant: bool, violations: seq<Violation>,
                         oracleOnly: seq<EventKey>, rustExtra: seq<EventKey>)

  datatype Tally = Tally(rustTypes: nat, mfcTypes: nat, violations: seq<Violation>,
                         oracleOnly: seq<string>, rustOnly: seq<string>)

  datatype FamilyReport = FamilyReport(tally: Tally, presentOnBoth: bool, ok: bool)

  datatype GateReport = GateReport(ok: bool, families: map<string, FamilyReport>)

  const packetFamilies: set<string> := {"ed2k_tcp", "kad_udp"}

  /** Body keys that Rust may lack: left out for privacy, or only emitted under a condition. */
  predicate Exempt(family: string, name: string) {
    || (family == "bad_peer" && name in {"fileName", "fileSize", "userName", "clientSoftware", "clientMod", "name"})
    || (family == "sched" && name == "firstSkipReason")
    || (family == "kad_event" && name == "reason")
  }

  predicate IsWirePacket(r: Record) {
    && "direction" in r.body && r.body["direction"] in {Text("send"), Text("recv")}
    && "opcode" in r.body && r.body["opcode"] != Null
  }

  /** The event a record is indexed under, if any. */
  function KeyOf(r: Record): Option<EventKey> {
    if r.family.None? || r.event.None? then None
    else if r.family.value in packetFamilies && !IsWirePacket(r) then None
    else Some(EventKey(r.family.value, r.event.value))
  }

  // ---------------------------------------------------------------- what a trace emits

  ghost predicate Emits(trace: seq<Record>, k: EventKey) {
    exists r <- trace :: KeyOf(r) == Some(k)
  }

  /** Some record of the event carries the body key. */
  ghost predicate Carries(trace: seq<Record>, k: EventKey, name: string) {
    exists r <- trace :: KeyOf(r) == Some(k) && name in r.body
  }

  function CountOf(trace: seq<Record>, k: EventKey): nat {
    if trace == [] then 0
    else
      var n := |trace| - 1;
      CountOf(trace[..n], k) + if KeyOf(trace[n]) == Some(k) then 1 else 0
  }

  /** The index lists the emitted events, each with its body keys and its count. */
  ghost predicate Indexes(index: map<EventKey, Slot>, trace: seq<Record>) {
    && (forall k :: k in index <==> Emits(trace, k))
    && (forall k, name :: k in index ==> (name in index[k].keys <==> Carries(trace, k, name)))
    && (forall k :: k in index ==> index[k].count == CountOf(trace, k))
  }

  function SlotAt(index: map<EventKey, Slot>, k: EventKey): Slot {
    if k in index then index[k] else Slot({}, 0)
  }

  lemma {:induction false} CountEmits(trace: seq<Record>, k: EventKey)
    ensures CountOf(trace, k) > 0 <==> Emits(trace, k)
  {
    if trace != [] {
      var n := |trace| - 1;
      CountEmits(trace[..n], k);
      assert trace == trace[..n] + [trace[n]];
    }
  }

  lemma IndexStep(index: map<EventKey, Slot>, trace: seq<Record>, r: Record)
    requires Indexes(index, trace)
    ensures KeyOf(r).None? ==> Indexes(index, trace + [r])
    ensures KeyOf(r).Some? ==>
              var k := KeyOf(r).value;
              var slot := SlotAt(index, k);
              Indexes(index[k := Slot(slot.keys + r.body.Keys, slot.count + 1)], trace + [r])
  {
    hide KeyOf;
    forall k
      ensures CountOf(trace + [r], k) == CountOf(trace, k) + if KeyOf(r) == Some(k) then 1 else 0
      ensures Emits(trace + [r], k) <==> Emits(trace, k) || KeyOf(r) == Some(k)
      ensures !Emits(trace, k) ==> CountOf(trace, k) == 0
    {
      assert (trace + [r])[..|trace|] == trace;
      CountEmits(trace, k);
    }
    forall k, name
      ensures Carries(trace + [r], k, name) <==> Carries(trace, k, name) || (KeyOf(r) == Some(k) && name in r.body)
      ensures Carries(trace, k, name) ==> Emits(trace, k)
    {
    }
    hide Emits, Carries, CountOf;
  }

  method Index(trace: seq<Record>) returns (index: map<EventKey, Slot>)
    ensures Indexes(index, trace)
  {
    assert Indexes(map[], []);
    hide Indexes, KeyOf;
    index := map[];
    for i := 0 to |trace|
      invariant Indexes(index, trace[..i])
    {
      var r := trace[i];
      IndexStep(index, trace[..i], r);
      assert trace[..i + 1] == trace[..i] + [r];
      var k := KeyOf(r);
      if k.None? {
        continue;
      }
      var slot := SlotAt(index, k.value);
      index := index[k.value := Slot(slot.keys + r.body.Keys, slot.count + 1)];
    }
    assert trace[..|trace|] == trace;
  }

  // ---------------------------------------------------------------- the verdicts

  /** Rust carries, on every event that both sides emit, each oracle body key that is not exempt. */
  ghost predicate Conformant(rust: seq<Record>, mfc: seq<Record>) {
    forall k, name :: Emits(rust, k) && Carries(mfc, k, name) ==> Carries(rust, k, name) || Exempt(k.family, name)
  }

  /** The same, for the events of one family. */
  ghost predicate ConformantIn(family: string, rust: seq<Record>, mfc: seq<Record>) {
    forall k: EventKey, name :: k.family == family && Emits(rust, k) && Carries(mfc, k, name) ==>
      Carries(rust, k, name) || Exempt(k.family, name)
  }

  /** Both sides emit the same events with the same body keys. */
  ghost predicate SameSchema(rust: seq<Record>, mfc: seq<Record>) {
    && (forall k :: Emits(rust, k) <==> Emits(mfc, k))
    && forall k, name :: Carries(rust, k, name) <==> Carries(mfc, k, name)
  }

  // ---------------------------------------------------------------- the audit

  /** A row says of its event what the two traces say of it. */
  ghost predicate Describes(row: Row, rust: seq<Record>, mfc: seq<Record>) {
    var k := row.key;
    && (row.presence == Both <==> Emits(rust, k) && Emits(mfc, k))
    && (row.presence == RustOnly <==> Emits(rust, k) && !Emits(mfc, k))
    && (row.presence == MfcOnly <==> !Emits(rust, k) && Emits(mfc, k))
    && row.rustCount == CountOf(rust, k) && row.mfcCount == CountOf(mfc, k)
    && (forall name :: name in row.shared <==> Carries(rust, k, name) && Carries(mfc, k, name))
    && (forall name :: name in row.onlyRust <==> Carries(rust, k, name) && !Carries(mfc, k, name))
    && (forall name :: name in row.onlyMfc <==> Carries(mfc, k, name) && !Carries(rust, k, name))
    && (row.bodyOk <==> row.presence == Both && row.onlyRust == {} && row.onlyMfc == {})
  }

  /** One row for each event that either side emits. */
  ghost predicate RowsFor(rows: seq<Row>, rust: seq<Record>, mfc: seq<Record>) {
    && (forall i, j :: 0 <= i < j < |rows| ==> rows[i].key != rows[j].key)
    && (forall k :: Emits(rust, k) || Emits(mfc, k) ==> exists row <- rows :: row.key == k)
    && (forall row <- rows :: Describes(row, rust, mfc))
  }

  function RowOf(k: EventKey, rust: map<EventKey, Slot>, mfc: map<EventKey, Slot>): Row
    requires k in rust || k in mfc
  {
    var r, m := SlotAt(rust, k), SlotAt(mfc, k);
    var presence := if k in rust && k in mfc then Both else if k in rust then RustOnly else MfcOnly;
    Row(k, presence, r.count, m.count, presence == Both && r.keys == m.keys,
        r.keys * m.keys, r.keys - m.keys, m.keys - r.keys)
  }

  /** The keys and count in an index, of an event that may be absent. */
  lemma SlotAtMeans(index: map<EventKey, Slot>, trace: seq<Record>, k: EventKey)
    requires Indexes(index, trace)
    ensures forall name :: name in SlotAt(index, k).keys <==> Carries(trace, k, name)
    ensures SlotAt(index, k).count == CountOf(trace, k)
    ensures k in index <==> Emits(trace, k)
  {
    CountEmits(trace, k);
    assert forall name :: Carries(trace, k, name) ==> Emits(trace, k);
    hide Emits, Carries, CountOf;
  }

  lemma RowDescribes(k: EventKey, rustIndex: map<EventKey, Slot>, mfcIndex: map<EventKey, Slot>,
                     rust: seq<Record>, mfc: seq<Record>)
    requires Indexes(rustIndex, rust) && Indexes(mfcIndex, mfc)
    requires k in rustIndex || k in mfcIndex
    ensures Describes(RowOf(k, rustIndex, mfcIndex), rust, mfc) && RowOf(k, rustIndex, mfcIndex).key == k
  {
    hide Emits, Carries, CountOf, Indexes, SlotAt;
    SlotAtMeans(rustIndex, rust, k);
    SlotAtMeans(mfcIndex, mfc, k);
    SameWhenNoDifference(SlotAt(rustIndex, k).keys, SlotAt(mfcIndex, k).keys);
  }

  lemma SameWhenNoDifference<T>(a: set<T>, b: set<T>)
    ensures a == b <==> a - b == {} && b - a == {}
  {
    if a - b == {} && b - a == {} {
      assert forall x :: x in a ==> x !in a - b;
      assert forall x :: x in b ==> x !in b - a;
    }
  }

  function Missing(row: Row): set<string> {
    set name | name in row.onlyMfc && !Exempt(row.key.family, name)
  }

  /** The violations of some rows: the shared events that lack a required body key. */
  function Violations(rows: seq<Row>): seq<Violation> {
    if rows == [] then []
    else
      var row := rows[|rows| - 1];
      Violations(rows[..|rows| - 1])
      + if row.presence == Both && Missing(row) != {} then [Violation(row.key, Missing(row))] else []
  }

  /** The events of the rows with one presence, in order. */
  function Having(rows: seq<Row>, presence: Presence): seq<EventKey> {
    if rows == [] then []
    else
      var row := rows[|rows| - 1];
      Having(rows[..|rows| - 1], presence) + if row.presence == presence then [row.key] else []
  }

  /** The rows built so far: each event of either index is pending or has its one row. */
  ghost predicate Building(rows: seq<Row>, pending: set<EventKey>, events: set<EventKey>, rust: seq<Record>,
                           mfc: seq<Record>)
  {
    && pending <= events
    && (forall k :: k in events && k !in pending ==> exists row <- rows :: row.key == k)
    && (forall row <- rows :: row.key !in pending && Describes(row, rust, mfc))
    && (forall i, j :: 0 <= i < j < |rows| ==> rows[i].key != rows[j].key)
  }

  lemma BuildStep(rows: seq<Row>, pending: set<EventKey>, events: set<EventKey>, row: Row, rust: seq<Record>,
                  mfc: seq<Record>)
    requires Building(rows, pending, events, rust, mfc) && row.key in pending && Describes(row, rust, mfc)
    ensures Building(rows + [row], pending - {row.key}, events, rust, mfc)
  {
    hide Describes;
    var more, rest := rows + [row], pending - {row.key};
    forall k | k in events && k !in rest
      ensures exists other <- more :: other.key == k
    {
      if k == row.key {
        assert row in more;
      } else {
        var other :| other in rows && other.key == k;
        assert other in more;
      }
    }
  }

  lemma BuildDone(rows: seq<Row>, events: set<EventKey>, rust: seq<Record>, mfc: seq<Record>)
    requires Building(rows, {}, events, rust, mfc)
    requires forall k :: Emits(rust, k) || Emits(mfc, k) ==> k in events
    ensures RowsFor(rows, rust, mfc)
  {
    hide Emits, Describes;
  }

  method BuildRows(rust: seq<Record>, mfc: seq<Record>) returns (rows: seq<Row>)
    ensures RowsFor(rows, rust, mfc)
  {
    assert forall events :: Building([], events, events, rust, mfc);
    hide Building, Indexes, RowOf, RowsFor, Emits;
    var rustIndex := Index(rust);
    var mfcIndex := Index(mfc);
    var pending := rustIndex.Keys + mfcIndex.Keys;
    ghost var events := pending;
    rows := [];
    while pending != {}
      invariant pending <= events && Building(rows, pending, events, rust, mfc)
      decreases |pending|
    {
      var k :| k in pending;
      ghost var before := pending;
      var row := RowOf(k, rustIndex, mfcIndex);
      RowDescribes(k, rustIndex, mfcIndex, rust, mfc);
      BuildStep(rows, pending, events, row, rust, mfc);
      rows := rows + [row];
      pending := pending - {k};
      assert |pending| < |before|;
    }
    IndexKeys(rustIndex, rust);
    IndexKeys(mfcIndex, mfc);
    BuildDone(rows, events, rust, mfc);
  }

  lemma IndexKeys(index: map<EventKey, Slot>, trace: seq<Record>)
    requires Indexes(index, trace)
    ensures forall k :: k in index <==> Emits(trace, k)
  {
  }

  /** The audit lists every event once, and both of its verdicts mean what they say. */
  method SchemaAudit(rust: seq<Record>, mfc: seq<Record>) returns (r: Audit)
    ensures RowsFor(r.rows, rust, mfc)
    ensures r.ok <==> SameSchema(rust, mfc)
    ensures r.conformant <==> Conformant(rust, mfc)
    ensures r.violations == Violations(r.rows)
    ensures forall v <- r.violations :: NamesMissing(v, rust, mfc)
    ensures forall k :: k in r.oracleOnly <==> Emits(mfc, k) && !Emits(rust, k)
    ensures forall k :: k in r.rustExtra <==> Emits(rust, k) && !Emits(mfc, k)
  {
    assert Violations([]) == [];
    hide RowsFor, SameSchema, Conformant, Emits, Missing, Violations, Having, NamesMissing;
    var rows := BuildRows(rust, mfc);
    var violations := [];
    for i := 0 to |rows|
      invariant violations == Violations(rows[..i])
    {
      var row := rows[i];
      RowSnoc(rows[..i], row);
      assert rows[..i + 1] == rows[..i] + [row];
      if row.presence != Both || row.onlyMfc == {} {
        continue;
      }
      var missing := Missing(row);
      if missing != {} {
        violations := violations + [Violation(row.key, missing)];
      }
    }
    assert rows[..|rows|] == rows;
    AuditVerdicts(rows, rust, mfc);
    r := Audit(forall row <- rows :: row.presence == Both && row.bodyOk, rows, violations == [], violations,
               Having(rows, MfcOnly), Having(rows, RustOnly));
  }

  lemma RowSnoc(rows: seq<Row>, row: Row)
    ensures Violations(rows + [row])
         == Violations(rows)
            + if row.presence == Both && Missing(row) != {} then [Violation(row.key, Missing(row))] else []
    ensures row.onlyMfc == {} ==> Missing(row) == {}
  {
    assert (rows + [row])[..|rows|] == rows;
  }

  lemma AuditVerdicts(rows: seq<Row>, rust: seq<Record>, mfc: seq<Record>)
    requires RowsFor(rows, rust, mfc)
    ensures (forall row <- rows :: row.presence == Both && row.bodyOk) <==> SameSchema(rust, mfc)
    ensures Violations(rows) == [] <==> Conformant(rust, mfc)
    ensures forall v <- Violations(rows) :: NamesMissing(v, rust, mfc)
    ensures forall k :: k in Having(rows, MfcOnly) <==> Emits(mfc, k) && !Emits(rust, k)
    ensures forall k :: k in Having(rows, RustOnly) <==> Emits(rust, k) && !Emits(mfc, k)
  {
    SameSchemaRows(rows, rust, mfc);
    ViolationsName(rows, rust, mfc);
    ViolationsMean(rows);
    ConformantRows(rows, rust, mfc);
    HavingMeans(rows, MfcOnly);
    HavingMeans(rows, RustOnly);
    hide Emits, Carries, CountOf, SameSchema, Conformant, ConformantIn, Violations, Having, Describes, Spares;
    hide NamesMissing;
    hide RowsClean, FamilyClean;
    forall k
      ensures k in Having(rows, MfcOnly) <==> Emits(mfc, k) && !Emits(rust, k)
      ensures k in Having(rows, RustOnly) <==> Emits(rust, k) && !Emits(mfc, k)
    {
      PresenceOf(rows, rust, mfc, k);
    }
  }

  lemma PresenceOf(rows: seq<Row>, rust: seq<Record>, mfc: seq<Record>, k: EventKey)
    requires RowsFor(rows, rust, mfc)
    ensures (exists row <- rows :: row.key == k && row.presence == MfcOnly) <==> Emits(mfc, k) && !Emits(rust, k)
    ensures (exists row <- rows :: row.key == k && row.presence == RustOnly) <==> Emits(rust, k) && !Emits(mfc, k)
    ensures (exists row <- rows :: row.key == k) <==> Emits(rust, k) || Emits(mfc, k)
  {
    hide Emits, Carries, CountOf;
    forall row <- rows
      ensures row.presence == MfcOnly <==> Emits(mfc, row.key) && !Emits(rust, row.key)
      ensures row.presence == RustOnly <==> Emits(rust, row.key) && !Emits(mfc, row.key)
      ensures Emits(rust, row.key) || Emits(mfc, row.key)
    {
      assert Describes(row, rust, mfc);
    }
    if Emits(rust, k) || Emits(mfc, k) {
      var row :| row in rows && row.key == k;
      assert row in rows;
    }
  }

  lemma SameSchemaRows(rows: seq<Row>, rust: seq<Record>, mfc: seq<Record>)
    requires RowsFor(rows, rust, mfc)
    ensures (forall row <- rows :: row.presence == Both && row.bodyOk) <==> SameSchema(rust, mfc)
  {
    forall k
      ensures forall name :: Carries(rust, k, name) ==> Emits(rust, k)
      ensures forall name :: Carries(mfc, k, name) ==> Emits(mfc, k)
    {
    }
    hide Emits, Carries, CountOf;
    if forall row <- rows :: row.presence == Both && row.bodyOk {
      forall k, name
        ensures Emits(rust, k) <==> Emits(mfc, k)
        ensures Carries(rust, k, name) <==> Carries(mfc, k, name)
      {
        if Emits(rust, k) || Emits(mfc, k) {
          var row :| row in rows && row.key == k;
          assert Describes(row, rust, mfc);
          assert name !in row.onlyRust && name !in row.onlyMfc;
        }
      }
    }
    if SameSchema(rust, mfc) {
      forall row <- rows
        ensures row.presence == Both && row.bodyOk
      {
        assert Describes(row, rust, mfc);
      }
    }
  }

  ghost predicate RowsClean(rows: seq<Row>) {
    forall row <- rows :: row.presence == Both ==> Missing(row) == {}
  }

  ghost predicate FamilyClean(rows: seq<Row>, family: string) {
    forall row <- rows :: row.key.family == family && row.presence == Both ==> Missing(row) == {}
  }

  /** No violation is of the family. */
  ghost predicate Spares(violations: seq<Violation>, family: string) {
    forall v <- violations :: v.key.family != family
  }

  /** There is no violation exactly when no shared row lacks a required key. */
  lemma {:induction false} ViolationsMean(rows: seq<Row>)
    ensures Violations(rows) == [] <==> RowsClean(rows)
    ensures forall f :: Spares(Violations(rows), f) <==> FamilyClean(rows, f)
  {
    hide Missing;
    if rows != [] {
      var n := |rows| - 1;
      var init, row := rows[..n], rows[n];
      ViolationsMean(init);
      assert rows == init + [row];
      RowSnoc(init, row);
      var bad := row.presence == Both && Missing(row) != {};
      var before := Violations(init);
      hide Violations;
      assert RowsClean(rows) <==> RowsClean(init) && !bad;
      forall f
        ensures Spares(Violations(rows), f) <==> FamilyClean(rows, f)
      {
        assert FamilyClean(rows, f) <==> FamilyClean(init, f) && !(bad && row.key.family == f);
        var violation := Violation(row.key, Missing(row));
        assert Spares(before + [violation], f) <==> Spares(before, f) && row.key.family != f;
      }
    }
  }

  lemma {:induction false} HavingMeans(rows: seq<Row>, presence: Presence)
    ensures forall k :: k in Having(rows, presence) <==> exists row <- rows :: row.key == k && row.presence == presence
  {
    if rows != [] {
      var n := |rows| - 1;
      HavingMeans(rows[..n], presence);
      assert rows == rows[..n] + [rows[n]];
    }
  }

  lemma ConformantRows(rows: seq<Row>, rust: seq<Record>, mfc: seq<Record>)
    requires RowsFor(rows, rust, mfc)
    ensures RowsClean(rows) <==> Conformant(rust, mfc)
    ensures forall f :: FamilyClean(rows, f) <==> ConformantIn(f, rust, mfc)
  {
    forall k
      ensures forall name :: Carries(mfc, k, name) ==> Emits(mfc, k)
    {
    }
    hide Emits, Carries, CountOf, Exempt;
    forall row <- rows
      ensures row.presence == Both ==> (Missing(row) == {} <==> KeysCovered(row.key, rust, mfc))
    {
      assert Describes(row, rust, mfc);
      if Missing(row) == {} {
        assert forall name :: name in row.onlyMfc && !Exempt(row.key.family, name) ==> name in Missing(row);
      }
    }
    forall k | Emits(rust, k) && Emits(mfc, k)
      ensures exists row <- rows :: row.key == k && row.presence == Both
    {
      var row :| row in rows && row.key == k;
      assert Describes(row, rust, mfc);
    }
    forall row <- rows
      ensures row.presence == Both ==> Emits(rust, row.key) && Emits(mfc, row.key)
    {
      assert Describes(row, rust, mfc);
    }
    hide Describes, RowsFor, Missing;
    forall f
      ensures ConformantIn(f, rust, mfc)
         <==> forall k: EventKey :: k.family == f && Emits(rust, k) && Emits(mfc, k) ==> KeysCovered(k, rust, mfc)
    {
    }
    assert Conformant(rust, mfc) <==> forall k :: Emits(rust, k) && Emits(mfc, k) ==> KeysCovered(k, rust, mfc);
    hide Conformant, ConformantIn, KeysCovered;
  }

  ghost predicate KeysCovered(k: EventKey, rust: seq<Record>, mfc: seq<Record>) {
    forall name :: Carries(mfc, k, name) ==> Carries(rust, k, name) || Exempt(k.family, name)
  }

  /** A violation names exactly the required keys that Rust lacks, and there is at least one. */
  lemma {:induction false} ViolationsName(rows: seq<Row>, rust: seq<Record>, mfc: seq<Record>)
    requires forall row <- rows :: Describes(row, rust, mfc)
    ensures forall v <- Violations(rows) :: NamesMissing(v, rust, mfc)
  {
    if rows != [] {
      var n := |rows| - 1;
      ViolationsName(rows[..n], rust, mfc);
      assert Describes(rows[n], rust, mfc);
      hide Emits, Carries, CountOf;
    }
  }

  ghost predicate NamesMissing(v: Violation, rust: seq<Record>, mfc: seq<Record>) {
    && Emits(rust, v.key) && Emits(mfc, v.key) && v.missing != {}
    && forall name :: name in v.missing <==>
         Carries(mfc, v.key, name) && !Carries(rust, v.key, name) && !Exempt(v.key.family, name)
  }

  // ---------------------------------------------------------------- the gate by family

  /** How many rows of a family one side emits. */
  function TypesIn(rows: seq<Row>, family: string, ofRust: bool): nat {
    if rows == [] then 0
    else
      var row := rows[|rows| - 1];
      TypesIn(rows[..|rows| - 1], family, ofRust)
      + if CountsFor(row, family, ofRust) then 1 else 0
  }

  function NamesIn(rows: seq<Row>, family: string, presence: Presence): seq<string> {
    if rows == [] then []
    else
      var row := rows[|rows| - 1];
      NamesIn(rows[..|rows| - 1], family, presence)
      + if row.key.family == family && row.presence == presence then [row.key.event] else []
  }

  function ViolationsIn(violations: seq<Violation>, family: string): seq<Violation> {
    if violations == [] then []
    else
      var v := violations[|violations| - 1];
      ViolationsIn(violations[..|violations| - 1], family) + if v.key.family == family then [v] else []
  }

  function TallyOf(rows: seq<Row>, violations: seq<Violation>, family: string): Tally {
    Tally(TypesIn(rows, family, true), TypesIn(rows, family, false), ViolationsIn(violations, family),
          NamesIn(rows, family, MfcOnly), NamesIn(rows, family, RustOnly))
  }

  ghost predicate HasRow(rows: seq<Row>, family: string) {
    exists row <- rows :: row.key.family == family
  }

  ghost predicate PerFamily(per: map<string, Tally>, rows: seq<Row>, violations: seq<Violation>) {
    && (forall f :: f in per <==> HasRow(rows, f))
    && forall f :: f in per ==> per[f] == TallyOf(rows, violations, f)
  }

  function Started(per: map<string, Tally>, family: string): Tally {
    if family in per then per[family] else Tally(0, 0, [], [], [])
  }

  /** A family's tally with one more row. */
  function Counted(t: Tally, row: Row): Tally {
    Tally(t.rustTypes + (if row.rustCount > 0 then 1 else 0), t.mfcTypes + (if row.mfcCount > 0 then 1 else 0),
          t.violations,
          t.oracleOnly + (if row.presence == MfcOnly then [row.key.event] else []),
          t.rustOnly + (if row.presence == RustOnly then [row.key.event] else []))
  }

  lemma {:induction false} NoRowNoTally(rows: seq<Row>, family: string)
    requires !HasRow(rows, family)
    ensures TallyOf(rows, [], family) == Tally(0, 0, [], [], [])
  {
    if rows != [] {
      var n := |rows| - 1;
      assert rows[n] in rows && forall row <- rows[..n] :: row in rows;
      NoRowNoTally(rows[..n], family);
    }
  }

  lemma RowCounted(per: map<string, Tally>, rows: seq<Row>, row: Row)
    requires PerFamily(per, rows, [])
    ensures var f := row.key.family;
            PerFamily(per[f := Counted(Started(per, f), row)], rows + [row], [])
  {
    var here := row.key.family;
    if here !in per {
      NoRowNoTally(rows, here);
    }
    forall f
      ensures TallyOf(rows + [row], [], f)
           == if f == here then Counted(TallyOf(rows, [], f), row) else TallyOf(rows, [], f)
      ensures HasRow(rows + [row], f) <==> HasRow(rows, f) || f == here
    {
      assert (rows + [row])[..|rows|] == rows;
    }
    hide TallyOf, HasRow;
  }

  lemma ViolationCounted(per: map<string, Tally>, rows: seq<Row>, violations: seq<Violation>, v: Violation)
    requires PerFamily(per, rows, violations)
    ensures var f := v.key.family;
            PerFamily(if f in per then per[f := per[f].(violations := per[f].violations + [v])] else per,
                      rows, violations + [v])
  {
    assert (violations + [v])[..|violations|] == violations;
    hide HasRow;
  }

  method TallyFamilies(rows: seq<Row>, violations: seq<Violation>) returns (per: map<string, Tally>)
    ensures PerFamily(per, rows, violations)
  {
    hide PerFamily, Counted;
    NothingYet("", true);
    per := map[];
    for i := 0 to |rows|
      invariant PerFamily(per, rows[..i], [])
    {
      var f := rows[i].key.family;
      RowCounted(per, rows[..i], rows[i]);
      assert rows[..i + 1] == rows[..i] + [rows[i]];
      per := per[f := Counted(Started(per, f), rows[i])];
    }
    assert rows[..|rows|] == rows && violations[..0] == [];
    for i := 0 to |violations|
      invariant PerFamily(per, rows, violations[..i])
    {
      var v := violations[i];
      ViolationCounted(per, rows, violations[..i], v);
      assert violations[..i + 1] == violations[..i] + [v];
      if v.key.family in per {
        per := per[v.key.family := per[v.key.family].(violations := per[v.key.family].violations + [v])];
      }
    }
    assert violations[..|violations|] == violations;
  }

  /** The events of a family that a trace emits. */
  function EventsOf(trace: seq<Record>, family: string): set<string> {
    if trace == [] then {}
    else
      var k := KeyOf(trace[|trace| - 1]);
      EventsOf(trace[..|trace| - 1], family)
      + if k.Some? && k.value.family == family then {k.value.event} else {}
  }

  lemma {:induction false} EventsMeans(trace: seq<Record>, family: string)
    ensures forall e :: e in EventsOf(trace, family) <==> Emits(trace, EventKey(family, e))
  {
    hide KeyOf;
    if trace != [] {
      var n := |trace| - 1;
      EventsMeans(trace[..n], family);
      assert trace == trace[..n] + [trace[n]];
    }
  }

  predicate CountsFor(row: Row, family: string, ofRust: bool) {
    row.key.family == family && (if ofRust then row.rustCount else row.mfcCount) > 0
  }

  ghost predicate Named(rows: seq<Row>, family: string, ofRust: bool, e: string) {
    exists row <- rows :: row.key.event == e && CountsFor(row, family, ofRust)
  }

  /** No event has two rows, so a side's event types are as many as its event names. */
  lemma {:induction false} TypesAreEvents(rows: seq<Row>, family: string, ofRust: bool, events: set<string>)
    requires forall i, j :: 0 <= i < j < |rows| ==> rows[i].key != rows[j].key
    requires forall e :: e in events <==> Named(rows, family, ofRust, e)
    ensures TypesIn(rows, family, ofRust) == |events|
  {
    hide CountsFor, Named;
    if rows == [] {
      NothingYet(family, ofRust);
      assert events == {};
    } else {
      var n := |rows| - 1;
      var init, row := rows[..n], rows[n];
      assert rows == init + [row];
      var name := row.key.event;
      var rest := if CountsFor(row, family, ofRust) then events - {name} else events;
      NameIsNew(init, row, family, ofRust);
      NamedSnoc(init, row, family, ofRust);
      TypesAreEvents(init, family, ofRust, rest);
      assert CountsFor(row, family, ofRust) ==> events == rest + {name} && name !in rest;
    }
  }

  lemma NothingYet(family: string, ofRust: bool)
    ensures PerFamily(map[], [], []) && forall e :: !Named([], family, ofRust, e)
  {
  }

  lemma NameIsNew(rows: seq<Row>, row: Row, family: string, ofRust: bool)
    requires forall other <- rows :: other.key != row.key
    ensures CountsFor(row, family, ofRust) ==> !Named(rows, family, ofRust, row.key.event)
  {
  }

  lemma NamedSnoc(rows: seq<Row>, row: Row, family: string, ofRust: bool)
    ensures forall e :: Named(rows + [row], family, ofRust, e)
                   <==> Named(rows, family, ofRust, e) || (row.key.event == e && CountsFor(row, family, ofRust))
  {
  }

  /** What one family's report says of its events. */
  ghost predicate ReportsFamily(report: FamilyReport, family: string, rust: seq<Record>, mfc: seq<Record>) {
    && (report.ok <==> ConformantIn(family, rust, mfc))
    && report.tally.rustTypes == |EventsOf(rust, family)| && report.tally.mfcTypes == |EventsOf(mfc, family)|
    && (report.presentOnBoth <==> EventsOf(rust, family) != {} && EventsOf(mfc, family) != {})
    && (forall v <- report.tally.violations :: v.key.family == family && NamesMissing(v, rust, mfc))
    && (forall e :: e in report.tally.oracleOnly <==> e in EventsOf(mfc, family) - EventsOf(rust, family))
    && (forall e :: e in report.tally.rustOnly <==> e in EventsOf(rust, family) - EventsOf(mfc, family))
  }

  /** The gate holds exactly when the audit calls the traces conformant, family by family and as a whole. */
  method FamilyConformance(rust: seq<Record>, mfc: seq<Record>) returns (r: GateReport)
    ensures r.ok <==> Conformant(rust, mfc)
    ensures forall f :: f in r.families <==> EventsOf(rust, f) + EventsOf(mfc, f) != {}
    ensures forall f :: f in r.families ==> ReportsFamily(r.families[f], f, rust, mfc)
  {
    hide RowsFor, SameSchema, Conformant, ConformantIn, Emits, Violations, EventsOf, PerFamily, ReportsFamily;
    hide NamesMissing;
    var audit := SchemaAudit(rust, mfc);
    var per := TallyFamilies(audit.rows, audit.violations);
    var pending := per.Keys;
    var families: map<string, FamilyReport> := map[];
    var ok := true;
    FamiliesReported(per, audit.rows, rust, mfc);
    while pending != {}
      invariant pending <= per.Keys
      invariant forall f :: f in families <==> f in per && f !in pending
      invariant forall f :: f in families ==> ReportsFamily(families[f], f, rust, mfc)
      invariant ok <==> forall f :: f in families ==> ConformantIn(f, rust, mfc)
      decreases |pending|
    {
      var f :| f in pending;
      ghost var before := pending;
      var report := ReportOn(per[f]);
      families := families[f := report];
      ok := ok && report.ok;
      pending := pending - {f};
      assert |pending| < |before|;
    }
    WholeFromFamilies(families.Keys, rust, mfc);
    r := GateReport(ok, families);
  }

  function ReportOn(t: Tally): FamilyReport {
    FamilyReport(t, t.rustTypes > 0 && t.mfcTypes > 0, t.violations == [])
  }

  lemma FamiliesReported(per: map<string, Tally>, rows: seq<Row>, rust: seq<Record>, mfc: seq<Record>)
    requires RowsFor(rows, rust, mfc) && PerFamily(per, rows, Violations(rows))
    ensures forall f :: f in per <==> EventsOf(rust, f) + EventsOf(mfc, f) != {}
    ensures forall f :: f in per ==> ReportsFamily(ReportOn(per[f]), f, rust, mfc)
    ensures forall f :: f in per ==> (ReportOn(per[f]).ok <==> ConformantIn(f, rust, mfc))
  {
    hide RowsFor, EventsOf, ReportsFamily, ReportOn, TallyOf;
    forall f
      ensures f in per <==> EventsOf(rust, f) + EventsOf(mfc, f) != {}
      ensures f in per ==> ReportsFamily(ReportOn(per[f]), f, rust, mfc)
      ensures f in per ==> (ReportOn(per[f]).ok <==> ConformantIn(f, rust, mfc))
    {
      FamilyHasEvents(f, rows, rust, mfc);
      FamilyReported(f, rows, rust, mfc);
    }
  }

  lemma FamilyHasEvents(f: string, rows: seq<Row>, rust: seq<Record>, mfc: seq<Record>)
    requires RowsFor(rows, rust, mfc)
    ensures HasRow(rows, f) <==> EventsOf(rust, f) + EventsOf(mfc, f) != {}
  {
    EventsMeans(rust, f);
    EventsMeans(mfc, f);
    hide EventsOf, Emits, Describes;
    if HasRow(rows, f) {
      var row :| row in rows && row.key.family == f;
      PresenceOf(rows, rust, mfc, row.key);
      hide RowsFor;
      assert row.key == EventKey(f, row.key.event);
      assert row.key.event in EventsOf(rust, f) + EventsOf(mfc, f);
    } else if EventsOf(rust, f) + EventsOf(mfc, f) != {} {
      var e :| e in EventsOf(rust, f) + EventsOf(mfc, f);
      assert Emits(rust, EventKey(f, e)) || Emits(mfc, EventKey(f, e));
      PresenceOf(rows, rust, mfc, EventKey(f, e));
      assert false;
    }
  }

  lemma FamilyReported(f: string, rows: seq<Row>, rust: seq<Record>, mfc: seq<Record>)
    requires RowsFor(rows, rust, mfc)
    ensures ReportsFamily(ReportOn(TallyOf(rows, Violations(rows), f)), f, rust, mfc)
    ensures ReportOn(TallyOf(rows, Violations(rows), f)).ok <==> ConformantIn(f, rust, mfc)
  {
    hide RowsFor, EventsOf, Emits, Carries, CountOf, NamesMissing, Violations, ConformantIn, Describes;
    hide TypesIn, NamesIn;
    hide RowsClean, FamilyClean, Spares, ViolationsIn;
    TypesCounted(f, rows, rust, mfc);
    NamesCounted(f, rows, rust, mfc);
    FamilyViolations(f, rows, rust, mfc);
    NonEmpty(EventsOf(rust, f));
    NonEmpty(EventsOf(mfc, f));
  }

  lemma FamilyViolations(f: string, rows: seq<Row>, rust: seq<Record>, mfc: seq<Record>)
    requires RowsFor(rows, rust, mfc)
    ensures forall v <- ViolationsIn(Violations(rows), f) :: v.key.family == f && NamesMissing(v, rust, mfc)
    ensures ViolationsIn(Violations(rows), f) == [] <==> ConformantIn(f, rust, mfc)
  {
    ViolationsName(rows, rust, mfc);
    hide RowsFor, EventsOf, Emits, Carries, CountOf, NamesMissing, Violations, ConformantIn, Describes;
    ViolationsMean(rows);
    ConformantRows(rows, rust, mfc);
    SparesIs(Violations(rows), f);
    hide Spares, FamilyClean, RowsClean, ViolationsIn;
  }

  lemma NonEmpty<T>(s: set<T>)
    ensures |s| > 0 <==> s != {}
  {
  }

  lemma {:induction false} SparesIs(violations: seq<Violation>, f: string)
    ensures ViolationsIn(violations, f) == [] <==> Spares(violations, f)
    ensures forall v <- ViolationsIn(violations, f) :: v in violations && v.key.family == f
  {
    if violations != [] {
      var n := |violations| - 1;
      SparesIs(violations[..n], f);
      assert violations == violations[..n] + [violations[n]];
    }
  }

  lemma TypesCounted(f: string, rows: seq<Row>, rust: seq<Record>, mfc: seq<Record>)
    requires RowsFor(rows, rust, mfc)
    ensures TypesIn(rows, f, true) == |EventsOf(rust, f)| && TypesIn(rows, f, false) == |EventsOf(mfc, f)|
  {
    EventsMeans(rust, f);
    EventsMeans(mfc, f);
    hide EventsOf, Carries;
    forall e
      ensures e in EventsOf(rust, f) <==> Named(rows, f, true, e)
      ensures e in EventsOf(mfc, f) <==> Named(rows, f, false, e)
    {
      NamedIsEmitted(f, e, rows, rust, mfc);
    }
    hide Describes, Named;
    TypesAreEvents(rows, f, true, EventsOf(rust, f));
    TypesAreEvents(rows, f, false, EventsOf(mfc, f));
  }

  lemma NamedIsEmitted(f: string, e: string, rows: seq<Row>, rust: seq<Record>, mfc: seq<Record>)
    requires RowsFor(rows, rust, mfc)
    ensures Named(rows, f, true, e) <==> Emits(rust, EventKey(f, e))
    ensures Named(rows, f, false, e) <==> Emits(mfc, EventKey(f, e))
  {
    var k := EventKey(f, e);
    CountEmits(rust, k);
    CountEmits(mfc, k);
    hide Emits, Carries, CountOf;
    forall row <- rows
      ensures row.key == k ==> row.rustCount == CountOf(rust, k) && row.mfcCount == CountOf(mfc, k)
    {
      assert Describes(row, rust, mfc);
    }
    if Emits(rust, k) || Emits(mfc, k) {
      var row :| row in rows && row.key == k;
      hide RowsFor;
      assert row in rows && row.key.event == e;
    }
  }

  lemma {:induction false} NamesInMeans(rows: seq<Row>, f: string, presence: Presence)
    ensures forall e :: e in NamesIn(rows, f, presence)
                   <==> exists row <- rows :: row.key == EventKey(f, e) && row.presence == presence
  {
    if rows != [] {
      var n := |rows| - 1;
      NamesInMeans(rows[..n], f, presence);
      assert rows == rows[..n] + [rows[n]];
    }
  }

  lemma NamesCounted(f: string, rows: seq<Row>, rust: seq<Record>, mfc: seq<Record>)
    requires RowsFor(rows, rust, mfc)
    ensures forall e :: e in NamesIn(rows, f, MfcOnly) <==> e in EventsOf(mfc, f) - EventsOf(rust, f)
    ensures forall e :: e in NamesIn(rows, f, RustOnly) <==> e in EventsOf(rust, f) - EventsOf(mfc, f)
  {
    EventsMeans(rust, f);
    EventsMeans(mfc, f);
    NamesInMeans(rows, f, MfcOnly);
    NamesInMeans(rows, f, RustOnly);
    hide EventsOf, NamesIn, Emits, Describes;
    forall e
      ensures e in NamesIn(rows, f, MfcOnly) <==> e in EventsOf(mfc, f) - EventsOf(rust, f)
      ensures e in NamesIn(rows, f, RustOnly) <==> e in EventsOf(rust, f) - EventsOf(mfc, f)
    {
      PresenceOf(rows, rust, mfc, EventKey(f, e));
    }
  }

  /** The whole is conformant exactly when each family that either side emits is. */
  lemma WholeFromFamilies(families: set<string>, rust: seq<Record>, mfc: seq<Record>)
    requires forall f :: f in families <==> EventsOf(rust, f) + EventsOf(mfc, f) != {}
    ensures Conformant(rust, mfc) <==> forall f :: f in families ==> ConformantIn(f, rust, mfc)
  {
    hide EventsOf;
    forall k, name | Emits(rust, k) && Carries(mfc, k, name)
      ensures k.family in families
    {
      EventsMeans(rust, k.family);
      assert EventKey(k.family, k.event) == k;
      assert k.event in EventsOf(rust, k.family) + EventsOf(mfc, k.family);
    }
    hide Emits, Carries, Exempt;
  }

  // ---------------------------------------------------------------- what keeps and what breaks it

  /** Two traces with the same schema are conformant: the strict verdict is the stronger one. */
  lemma SameSchemaIsConformant(rust: seq<Record>, mfc: seq<Record>)
    requires SameSchema(rust, mfc)
    ensures Conformant(rust, mfc)
  {
    hide Emits, Carries, Exempt;
  }

  /**
   One more Rust record: for an event Rust emits already it never breaks the verdict, and for a new event the
   verdict stays exactly when the record itself carries every required key of that event.
   */
  lemma OneMoreRustRecord(rust: seq<Record>, r: Record, mfc: seq<Record>)
    ensures KeyOf(r).None? ==> (Conformant(rust + [r], mfc) <==> Conformant(rust, mfc))
    ensures KeyOf(r).Some? && Emits(rust, KeyOf(r).value) ==> (Conformant(rust, mfc) ==> Conformant(rust + [r], mfc))
    ensures KeyOf(r).Some? && !Emits(rust, KeyOf(r).value) ==>
              (Conformant(rust + [r], mfc) <==>
                 Conformant(rust, mfc) &&
                 forall name :: Carries(mfc, KeyOf(r).value, name) ==>
                   name in r.body || Exempt(KeyOf(r).value.family, name))
  {
    hide KeyOf, Exempt;
    var more := rust + [r];
    forall k
      ensures Emits(more, k) <==> Emits(rust, k) || KeyOf(r) == Some(k)
    {
    }
    forall k, name
      ensures Carries(more, k, name) <==> Carries(rust, k, name) || (KeyOf(r) == Some(k) && name in r.body)
      ensures Carries(rust, k, name) ==> Emits(rust, k)
    {
    }
    hide Emits, Carries;
    if KeyOf(r).Some? && !Emits(rust, KeyOf(r).value) {
      var k := KeyOf(r).value;
      if Conformant(more, mfc) {
        assert forall name :: Carries(mfc, k, name) ==> Carries(more, k, name) || Exempt(k.family, name);
        assert forall j, name :: Emits(rust, j) ==> j != k && (Carries(more, j, name) <==> Carries(rust, j, name));
      }
    }
  }

  /** More Rust records of events that Rust emits already, anywhere in the trace, never break the verdict. */
  lemma MoreRustKeepsConformance(rust: seq<Record>, more: seq<Record>, mfc: seq<Record>)
    requires Conformant(rust, mfc)
    requires forall r <- rust :: r in more
    requires forall r <- more :: KeyOf(r).Some? ==> Emits(rust, KeyOf(r).value)
    ensures Conformant(more, mfc)
  {
    hide KeyOf, Exempt;
    forall k, name | Emits(more, k) && Carries(mfc, k, name)
      ensures Carries(more, k, name) || Exempt(k.family, name)
    {
      assert Emits(rust, k);
      if !Exempt(k.family, name) {
        var r :| r in rust && KeyOf(r) == Some(k) && name in r.body;
        assert r in more;
      }
    }
  }

  /** Fewer oracle records never break the verdict. */
  lemma FewerOracleKeepsConformance(rust: seq<Record>, mfc: seq<Record>, fewer: seq<Record>)
    requires Conformant(rust, mfc)
    requires forall r <- fewer :: r in mfc
    ensures Conformant(rust, fewer)
  {
    forall k, name | Emits(rust, k) && Carries(fewer, k, name)
      ensures Carries(rust, k, name) || Exempt(k.family, name)
    {
      var r :| r in fewer && KeyOf(r) == Some(k) && name in r.body;
      assert r in mfc;
    }
  }
}
