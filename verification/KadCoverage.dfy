/** Which Kad opcodes each client exercised, and what that says about the Rust client. */
module KadCoverage {
  import opened Basics
  import opened Outcomes

  datatype Opcode = Number(n: int) | Text(s: string)

  /** A packet record: the three places an opcode may stand in, and the two a direction may stand in. */
  datatype Record = Record(keysOpcode: Option<Opcode>, bodyOpcode: Option<Opcode>, opcode: Option<Opcode>,
                           direction: Option<string>, bodyDirection: Option<string>)

  /** What one direction saw of each client. */
  datatype Sides = Sides(rust: map<Opcode, nat>, emule: map<Opcode, nat>)

  datatype Client = Rust | Emule

  datatype Coverage = Coverage(ok: bool, oracleOk: bool, rustCounts: map<Opcode, nat>, emuleCounts: map<Opcode, nat>,
                               shared: set<Opcode>, onlyRust: set<Opcode>, onlyEmule: set<Opcode>,
                               sentGaps: set<Opcode>, receivedOnly: set<Opcode>, expectedOnly: set<Opcode>,
                               credited: set<Opcode>, directions: map<string, Sides>)

  /** Opcodes that only the MFC client is expected to speak. */
  const expectedOnlyEmule: set<int> := {0x20, 0x30, 0x40, 0x48, 0x50}

  predicate Expected(op: Opcode) {
    op.Number? && op.n in expectedOnlyEmule
  }

  /** The first opcode present; a spelled one is read as a number when `readNumber` can. */
  function OpcodeOf(r: Record, readNumber: string -> Option<int>): Option<Opcode> {
    var found := if r.keysOpcode.Some? then r.keysOpcode else if r.bodyOpcode.Some? then r.bodyOpcode else r.opcode;
    match found
    case Some(Text(s)) => (match readNumber(s) case Some(n) => Some(Number(n)) case None => found)
    case _ => found
  }

  function DirectionOf(r: Record): string {
    if r.direction.Some? && r.direction.value != "" then r.direction.value
    else if r.bodyDirection.Some? && r.bodyDirection.value != "" then r.bodyDirection.value
    else "any"
  }

  // ---------------------------------------------------------------- what a record says

  /** The opcode as it is written: among the keys, else in the body, else on the record. */
  predicate IsWritten(r: Record, written: Opcode) {
    || r.keysOpcode == Some(written)
    || (r.keysOpcode == None && r.bodyOpcode == Some(written))
    || (r.keysOpcode == None && r.bodyOpcode == None && r.opcode == Some(written))
  }

  /** What a written opcode is taken for: a spelled number is that number, any other text is itself. */
  predicate TakenFor(written: Opcode, op: Opcode, readNumber: string -> Option<int>) {
    if written.Text? && readNumber(written.s) != None then op == Number(readNumber(written.s).value) else op == written
  }

  lemma OpcodeIs(r: Record, op: Opcode, readNumber: string -> Option<int>)
    ensures OpcodeOf(r, readNumber) == Some(op) <==>
            exists written :: IsWritten(r, written) && TakenFor(written, op, readNumber)
  {
    var found := if r.keysOpcode.Some? then r.keysOpcode else if r.bodyOpcode.Some? then r.bodyOpcode else r.opcode;
    if found.Some? {
      assert IsWritten(r, found.value);
      assert forall written :: IsWritten(r, written) ==> written == found.value;
    }
  }

  /** A packet was sent when its record says so, or says nothing and its body does. */
  lemma SentIs(r: Record)
    ensures DirectionOf(r) == "send" <==>
            r.direction == Some("send") || (r.direction in {None, Some("")} && r.bodyDirection == Some("send"))
  {
  }

  /** Five legacy opcodes, by number, are expected of the MFC client only. */
  lemma ExpectedIs(op: Opcode)
    ensures Expected(op) <==> op in {Number(32), Number(48), Number(64), Number(72), Number(80)}
  {
  }

  // ---------------------------------------------------------------- counting

  /** How many records carry an opcode. */
  function Occurrences(records: seq<Record>, op: Opcode, readNumber: string -> Option<int>): nat {
    if records == [] then 0
    else
      var n := |records| - 1;
      Occurrences(records[..n], op, readNumber) + if OpcodeOf(records[n], readNumber) == Some(op) then 1 else 0
  }

  ghost predicate Exercises(records: seq<Record>, op: Opcode, readNumber: string -> Option<int>) {
    exists r <- records :: OpcodeOf(r, readNumber) == Some(op)
  }

  ghost predicate Sends(records: seq<Record>, op: Opcode, readNumber: string -> Option<int>) {
    exists r <- records :: OpcodeOf(r, readNumber) == Some(op) && DirectionOf(r) == "send"
  }

  /** A direction is listed when some record with an opcode has it. */
  ghost predicate Moves(records: seq<Record>, d: string, readNumber: string -> Option<int>) {
    exists r <- records :: OpcodeOf(r, readNumber).Some? && DirectionOf(r) == d
  }

  function Facing(records: seq<Record>, d: string): seq<Record> {
    if records == [] then []
    else
      var n := |records| - 1;
      Facing(records[..n], d) + if DirectionOf(records[n]) == d then [records[n]] else []
  }

  /** A table of counts lists exactly the opcodes that occur, each with the number of its records. */
  ghost predicate Tallies(counts: map<Opcode, nat>, records: seq<Record>, readNumber: string -> Option<int>) {
    && (forall op :: op in counts <==> Occurrences(records, op, readNumber) > 0)
    && forall op :: op in counts ==> counts[op] == Occurrences(records, op, readNumber)
  }

  lemma {:induction false} OccurrencesExercise(records: seq<Record>, op: Opcode, readNumber: string -> Option<int>)
    ensures Occurrences(records, op, readNumber) > 0 <==> Exercises(records, op, readNumber)
  {
    if records != [] {
      var n := |records| - 1;
      OccurrencesExercise(records[..n], op, readNumber);
      assert records == records[..n] + [records[n]];
    }
  }

  lemma {:induction false} OccurrencesAdd(a: seq<Record>, b: seq<Record>, op: Opcode, readNumber: string -> Option<int>)
    ensures Occurrences(a + b, op, readNumber) == Occurrences(a, op, readNumber) + Occurrences(b, op, readNumber)
  {
    if b == [] {
      assert a + b == a;
    } else {
      var n := |b| - 1;
      OccurrencesAdd(a, b[..n], op, readNumber);
      assert (a + b)[..|a| + n] == a + b[..n];
    }
  }

  function Bump(counts: map<Opcode, nat>, op: Opcode): map<Opcode, nat> {
    counts[op := (if op in counts then counts[op] else 0) + 1]
  }

  lemma TalliesBump(counts: map<Opcode, nat>, records: seq<Record>, r: Record, readNumber: string -> Option<int>)
    requires Tallies(counts, records, readNumber)
    ensures var op := OpcodeOf(r, readNumber);
            Tallies(if op.None? then counts else Bump(counts, op.value), records + [r], readNumber)
  {
    assert (records + [r])[..|records|] == records;
    forall op
      ensures Occurrences(records + [r], op, readNumber)
           == Occurrences(records, op, readNumber) + if OpcodeOf(r, readNumber) == Some(op) then 1 else 0
    {
    }
  }

  function At(byDirection: map<string, Sides>, d: string): Sides {
    if d in byDirection then byDirection[d] else Sides(map[], map[])
  }

  function SideOf(sides: Sides, client: Client): map<Opcode, nat> {
    if client == Rust then sides.rust else sides.emule
  }

  function WithSide(sides: Sides, client: Client, counts: map<Opcode, nat>): Sides {
    if client == Rust then sides.(rust := counts) else sides.(emule := counts)
  }

  function Other(client: Client): Client {
    if client == Rust then Emule else Rust
  }

  /** One client's share of the per-direction table is counted; the other client's is as it was. */
  ghost predicate DirectionsCounted(before: map<string, Sides>, after: map<string, Sides>, client: Client,
                                    records: seq<Record>, readNumber: string -> Option<int>) {
    && (forall d :: Tallies(SideOf(At(after, d), client), Facing(records, d), readNumber))
    && (forall d :: SideOf(At(after, d), Other(client)) == SideOf(At(before, d), Other(client)))
    && (forall d :: d in after <==> d in before || Moves(records, d, readNumber))
  }

  lemma MovesSnoc(records: seq<Record>, r: Record, d: string, readNumber: string -> Option<int>)
    ensures Moves(records + [r], d, readNumber)
       <==> Moves(records, d, readNumber) || (OpcodeOf(r, readNumber).Some? && DirectionOf(r) == d)
  {
  }

  lemma FacingSnoc(records: seq<Record>, r: Record, d: string)
    ensures Facing(records + [r], d) == Facing(records, d) + if DirectionOf(r) == d then [r] else []
  {
    assert (records + [r])[..|records|] == records;
  }

  lemma DirectionStep(before: map<string, Sides>, after: map<string, Sides>, client: Client, records: seq<Record>,
                      r: Record, readNumber: string -> Option<int>)
    requires DirectionsCounted(before, after, client, records, readNumber)
    ensures var op, d := OpcodeOf(r, readNumber), DirectionOf(r);
            var slot := At(after, d);
            DirectionsCounted(before,
                              if op.None? then after
                              else after[d := WithSide(slot, client, Bump(SideOf(slot, client), op.value))],
                              client, records + [r], readNumber)
  {
    hide Tallies, Facing, OpcodeOf, DirectionOf, Moves;
    var op, here := OpcodeOf(r, readNumber), DirectionOf(r);
    var slot := At(after, here);
    var next := if op.None? then after else after[here := WithSide(slot, client, Bump(SideOf(slot, client), op.value))];
    forall d
      ensures Tallies(SideOf(At(next, d), client), Facing(records + [r], d), readNumber)
    {
      FacingSnoc(records, r, d);
      if d == here {
        TalliesBump(SideOf(At(after, d), client), Facing(records, d), r, readNumber);
      } else {
        assert Facing(records, d) + [] == Facing(records, d);
      }
    }
    forall d
      ensures d in next <==> d in before || Moves(records + [r], d, readNumber)
    {
      MovesSnoc(records, r, d, readNumber);
    }
  }

  /** Counts one client's records, in all and by direction, and the opcodes it sent. */
  method CountClient(records: seq<Record>, client: Client, before: map<string, Sides>,
                     readNumber: string -> Option<int>)
    returns (combined: map<Opcode, nat>, byDirection: map<string, Sides>, sent: set<Opcode>)
    requires forall d :: SideOf(At(before, d), client) == map[]
    ensures Tallies(combined, records, readNumber)
    ensures DirectionsCounted(before, byDirection, client, records, readNumber)
    ensures forall op :: op in sent <==> Sends(records, op, readNumber)
  {
    hide Tallies, DirectionsCounted, Sends, OpcodeOf, DirectionOf;
    NothingCounted(before, client, readNumber);
    combined, byDirection, sent := map[], before, {};
    for i := 0 to |records|
      invariant Tallies(combined, records[..i], readNumber)
      invariant DirectionsCounted(before, byDirection, client, records[..i], readNumber)
      invariant forall op :: op in sent <==> Sends(records[..i], op, readNumber)
    {
      var r := records[i];
      var opcode, direction := OpcodeOf(r, readNumber), DirectionOf(r);
      assert records[..i + 1] == records[..i] + [r];
      TalliesBump(combined, records[..i], r, readNumber);
      DirectionStep(before, byDirection, client, records[..i], r, readNumber);
      SendsSnoc(records[..i], r, readNumber);
      if opcode.None? {
        continue;
      }
      var slot := At(byDirection, direction);
      byDirection := byDirection[direction := WithSide(slot, client, Bump(SideOf(slot, client), opcode.value))];
      combined := Bump(combined, opcode.value);
      if direction == "send" {
        sent := sent + {opcode.value};
      }
    }
    assert records[..|records|] == records;
  }

  /** Counts the supplementary dump; its directions do not matter. */
  method CountSupplementary(records: seq<Record>, readNumber: string -> Option<int>) returns (counts: map<Opcode, nat>)
    ensures Tallies(counts, records, readNumber)
  {
    hide Tallies, OpcodeOf;
    NothingCounted(map[], Rust, readNumber);
    counts := map[];
    for i := 0 to |records|
      invariant Tallies(counts, records[..i], readNumber)
    {
      var opcode := OpcodeOf(records[i], readNumber);
      TalliesBump(counts, records[..i], records[i], readNumber);
      assert records[..i + 1] == records[..i] + [records[i]];
      if opcode.None? {
        continue;
      }
      counts := Bump(counts, opcode.value);
    }
    assert records[..|records|] == records;
  }

  lemma SendsSnoc(records: seq<Record>, r: Record, readNumber: string -> Option<int>)
    ensures forall op :: Sends(records + [r], op, readNumber)
                    <==> Sends(records, op, readNumber)
                         || (OpcodeOf(r, readNumber) == Some(op) && DirectionOf(r) == "send")
  {
  }

  lemma NothingCounted(before: map<string, Sides>, client: Client, readNumber: string -> Option<int>)
    requires forall d :: SideOf(At(before, d), client) == map[]
    ensures Tallies(map[], [], readNumber)
    ensures DirectionsCounted(before, before, client, [], readNumber)
    ensures forall op :: !Sends([], op, readNumber)
  {
  }

  // ---------------------------------------------------------------- the verdict

  /** What the Rust client is credited with: its own records, or else the supplementary dump. */
  function RustCount(rust: seq<Record>, supplementary: seq<Record>, op: Opcode,
                     readNumber: string -> Option<int>): nat
  {
    var own := Occurrences(rust, op, readNumber);
    if own > 0 then own else Occurrences(supplementary, op, readNumber)
  }

  /** Every opcode the MFC client sent was exercised by Rust in any direction, or need not be. */
  ghost predicate OracleOk(rust: seq<Record>, emule: seq<Record>, supplementary: seq<Record>,
                           readNumber: string -> Option<int>) {
    forall op :: Sends(emule, op, readNumber) ==>
      Exercises(rust, op, readNumber) || Exercises(supplementary, op, readNumber) || Expected(op)
  }

  ghost predicate StrictOk(rust: seq<Record>, emule: seq<Record>, supplementary: seq<Record>,
                           readNumber: string -> Option<int>) {
    forall op :: Exercises(emule, op, readNumber)
            <==> Exercises(rust, op, readNumber) || Exercises(supplementary, op, readNumber)
  }

  /** The report counts what each client did, lists what only one did, and its verdicts mean what they say. */
  method KadOpcodeCoverage(rust: seq<Record>, emule: seq<Record>, supplementary: seq<Record>,
                           readNumber: string -> Option<int>)
    returns (r: Coverage)
    ensures r.oracleOk <==> OracleOk(rust, emule, supplementary, readNumber)
    ensures r.ok <==> StrictOk(rust, emule, supplementary, readNumber)
    ensures Tallies(r.emuleCounts, emule, readNumber)
    ensures forall op :: op in r.rustCounts <==> RustCount(rust, supplementary, op, readNumber) > 0
    ensures forall op :: op in r.rustCounts ==> r.rustCounts[op] == RustCount(rust, supplementary, op, readNumber)
    ensures forall op :: op in r.credited <==>
              !Exercises(rust, op, readNumber) && Exercises(supplementary, op, readNumber)
    ensures r.shared == r.rustCounts.Keys * r.emuleCounts.Keys
    ensures r.onlyRust == r.rustCounts.Keys - r.emuleCounts.Keys
    ensures r.onlyEmule == r.emuleCounts.Keys - r.rustCounts.Keys
    ensures forall op :: op in r.sentGaps <==> op in r.onlyEmule && Sends(emule, op, readNumber) && !Expected(op)
    ensures forall op :: op in r.receivedOnly <==> op in r.onlyEmule && !Sends(emule, op, readNumber)
    ensures forall op :: op in r.expectedOnly <==> op in r.onlyEmule && Expected(op)
    ensures forall d :: d in r.directions <==> Moves(rust, d, readNumber) || Moves(emule, d, readNumber)
    ensures forall d :: d in r.directions ==> Tallies(r.directions[d].rust, Facing(rust, d), readNumber)
    ensures forall d :: d in r.directions ==> Tallies(r.directions[d].emule, Facing(emule, d), readNumber)
  {
    hide Tallies, Occurrences, Exercises, Sends, Moves, Facing, OpcodeOf, DirectionOf, DirectionsCounted, Expected,
         RustCount,
         OracleOk, StrictOk;
    var rustAll, rustDirections, _ := CountClient(rust, Rust, map[], readNumber);
    RustOnlySoFar(rustDirections, rust, readNumber);
    var emuleAll, byDirection, emuleSent := CountClient(emule, Emule, rustDirections, readNumber);
    BothCounted(rustDirections, byDirection, rust, emule, readNumber);
    var supplementaryCounts := CountSupplementary(supplementary, readNumber);
    var credited := set op | op in supplementaryCounts && op !in rustAll;
    ghost var own := rustAll;
    rustAll := CreditSupplementary(rustAll, supplementaryCounts, credited);
    var onlyRust := rustAll.Keys - emuleAll.Keys;
    var onlyEmule := emuleAll.Keys - rustAll.Keys;
    var sentGaps := set op | op in onlyEmule && op in emuleSent && !Expected(op);
    var receivedOnly := set op | op in onlyEmule && op !in emuleSent;
    var expectedOnly := set op | op in onlyEmule && Expected(op);
    Credits(own, supplementaryCounts, rust, supplementary, readNumber);
    Verdicts(rustAll, emuleAll, emuleSent, rust, emule, supplementary, readNumber);
    r := Coverage(onlyRust == {} && onlyEmule == {}, sentGaps == {}, rustAll, emuleAll,
                  rustAll.Keys * emuleAll.Keys, onlyRust, onlyEmule, sentGaps,
                  receivedOnly, expectedOnly, credited, byDirection);
  }

  /** Adds the supplementary counts of the credited opcodes, one at a time. */
  method CreditSupplementary(own: map<Opcode, nat>, extra: map<Opcode, nat>, credited: set<Opcode>)
    returns (all: map<Opcode, nat>)
    requires forall op :: op in credited ==> op in extra && op !in own
    ensures forall op :: op in all <==> op in own || op in credited
    ensures forall op :: op in own ==> all[op] == own[op]
    ensures forall op :: op in credited ==> all[op] == extra[op]
  {
    all := own;
    var pending := credited;
    while pending != {}
      invariant pending <= credited
      invariant forall op :: op in all <==> op in own || (op in credited && op !in pending)
      invariant forall op :: op in own ==> all[op] == own[op]
      invariant forall op :: op in credited && op !in pending ==> all[op] == extra[op]
      decreases |pending|
    {
      var op :| op in pending;
      ghost var before := pending;
      all := all[op := extra[op]];
      pending := pending - {op};
      assert |pending| < |before|;
    }
  }

  lemma RustOnlySoFar(directions: map<string, Sides>, rust: seq<Record>, readNumber: string -> Option<int>)
    requires DirectionsCounted(map[], directions, Rust, rust, readNumber)
    ensures forall d :: SideOf(At(directions, d), Emule) == map[]
  {
  }

  lemma BothCounted(middle: map<string, Sides>, after: map<string, Sides>, rust: seq<Record>, emule: seq<Record>,
                    readNumber: string -> Option<int>)
    requires DirectionsCounted(map[], middle, Rust, rust, readNumber)
    requires DirectionsCounted(middle, after, Emule, emule, readNumber)
    ensures forall d :: d in after <==> Moves(rust, d, readNumber) || Moves(emule, d, readNumber)
    ensures forall d :: d in after ==> Tallies(after[d].rust, Facing(rust, d), readNumber)
    ensures forall d :: d in after ==> Tallies(after[d].emule, Facing(emule, d), readNumber)
  {
    hide Tallies, Facing, Moves;
    forall d | d in after
      ensures Tallies(after[d].rust, Facing(rust, d), readNumber)
      ensures Tallies(after[d].emule, Facing(emule, d), readNumber)
    {
      assert SideOf(At(after, d), Rust) == SideOf(At(middle, d), Rust) == after[d].rust;
      assert SideOf(At(after, d), Emule) == after[d].emule;
    }
  }

  lemma Credits(own: map<Opcode, nat>, extra: map<Opcode, nat>, rust: seq<Record>, supplementary: seq<Record>,
                readNumber: string -> Option<int>)
    requires Tallies(own, rust, readNumber) && Tallies(extra, supplementary, readNumber)
    ensures forall op :: op in own <==> Exercises(rust, op, readNumber)
    ensures forall op :: op in extra <==> Exercises(supplementary, op, readNumber)
    ensures forall op :: op in own || op in extra <==> RustCount(rust, supplementary, op, readNumber) > 0
    ensures forall op :: op in own ==> own[op] == RustCount(rust, supplementary, op, readNumber)
    ensures forall op :: op in extra && op !in own ==> extra[op] == RustCount(rust, supplementary, op, readNumber)
  {
    forall op
      ensures Occurrences(rust, op, readNumber) > 0 <==> Exercises(rust, op, readNumber)
      ensures Occurrences(supplementary, op, readNumber) > 0 <==> Exercises(supplementary, op, readNumber)
    {
      OccurrencesExercise(rust, op, readNumber);
      OccurrencesExercise(supplementary, op, readNumber);
    }
  }

  lemma Verdicts(rustAll: map<Opcode, nat>, emuleAll: map<Opcode, nat>, sent: set<Opcode>,
                 rust: seq<Record>, emule: seq<Record>, supplementary: seq<Record>, readNumber: string -> Option<int>)
    requires forall op :: op in rustAll <==> Exercises(rust, op, readNumber) || Exercises(supplementary, op, readNumber)
    requires Tallies(emuleAll, emule, readNumber)
    requires forall op :: op in sent <==> Sends(emule, op, readNumber)
    ensures (set op | op in emuleAll.Keys - rustAll.Keys && op in sent && !Expected(op)) == {}
       <==> OracleOk(rust, emule, supplementary, readNumber)
    ensures rustAll.Keys - emuleAll.Keys == {} && emuleAll.Keys - rustAll.Keys == {}
       <==> StrictOk(rust, emule, supplementary, readNumber)
  {
    hide Occurrences;
    forall op
      ensures op in emuleAll <==> Exercises(emule, op, readNumber)
      ensures op in sent ==> op in emuleAll
    {
      OccurrencesExercise(emule, op, readNumber);
    }
    hide Tallies, Exercises, Sends, Expected;
    var gaps := set op | op in emuleAll.Keys - rustAll.Keys && op in sent && !Expected(op);
    assert forall op :: op in gaps <==> op in sent && op !in rustAll && !Expected(op);
    assert gaps == {} <==> forall op :: op !in gaps;
    var onlyRust, onlyEmule := rustAll.Keys - emuleAll.Keys, emuleAll.Keys - rustAll.Keys;
    assert onlyRust == {} <==> forall op :: op !in onlyRust;
    assert onlyEmule == {} <==> forall op :: op !in onlyEmule;
    assert forall op :: op in onlyRust <==> op in rustAll && op !in emuleAll;
    assert forall op :: op in onlyEmule <==> op in emuleAll && op !in rustAll;
  }

  // ---------------------------------------------------------------- what the verdict does and does not depend on

  /** Relabelling the directions of Rust's records changes no count, so it changes no verdict. */
  lemma {:induction false} RelabellingRust(rust: seq<Record>, relabelled: seq<Record>, emule: seq<Record>,
                                           supplementary: seq<Record>, readNumber: string -> Option<int>)
    requires |relabelled| == |rust|
    requires forall i :: 0 <= i < |rust| ==>
               relabelled[i] == rust[i].(direction := relabelled[i].direction,
                                         bodyDirection := relabelled[i].bodyDirection)
    ensures forall op :: RustCount(relabelled, supplementary, op, readNumber)
                      == RustCount(rust, supplementary, op, readNumber)
    ensures OracleOk(relabelled, emule, supplementary, readNumber) <==> OracleOk(rust, emule, supplementary, readNumber)
    ensures StrictOk(relabelled, emule, supplementary, readNumber) <==> StrictOk(rust, emule, supplementary, readNumber)
  {
    forall op
      ensures Occurrences(relabelled, op, readNumber) == Occurrences(rust, op, readNumber)
      ensures Exercises(relabelled, op, readNumber) <==> Exercises(rust, op, readNumber)
    {
      SameOpcodesSameCounts(rust, relabelled, op, readNumber);
      OccurrencesExercise(rust, op, readNumber);
      OccurrencesExercise(relabelled, op, readNumber);
    }
  }

  lemma {:induction false} SameOpcodesSameCounts(a: seq<Record>, b: seq<Record>, op: Opcode,
                                                 readNumber: string -> Option<int>)
    requires |a| == |b|
    requires forall i :: 0 <= i < |a| ==> OpcodeOf(b[i], readNumber) == OpcodeOf(a[i], readNumber)
    ensures Occurrences(b, op, readNumber) == Occurrences(a, op, readNumber)
  {
    if a != [] {
      SameOpcodesSameCounts(a[..|a| - 1], b[..|a| - 1], op, readNumber);
    }
  }

  /** More Rust records, in either stream and anywhere in it, never fail a passing verdict. */
  lemma MoreRustKeepsOracleOk(rust: seq<Record>, moreRust: seq<Record>, emule: seq<Record>, supplementary: seq<Record>,
                              moreSupplementary: seq<Record>, readNumber: string -> Option<int>)
    requires OracleOk(rust, emule, supplementary, readNumber)
    requires forall r <- rust :: r in moreRust
    requires forall r <- supplementary :: r in moreSupplementary
    ensures OracleOk(moreRust, emule, moreSupplementary, readNumber)
  {
    forall op | Sends(emule, op, readNumber)
      ensures Exercises(moreRust, op, readNumber) || Exercises(moreSupplementary, op, readNumber) || Expected(op)
    {
      if Exercises(rust, op, readNumber) {
        var r :| r in rust && OpcodeOf(r, readNumber) == Some(op);
        assert r in moreRust;
      } else if Exercises(supplementary, op, readNumber) {
        var r :| r in supplementary && OpcodeOf(r, readNumber) == Some(op);
        assert r in moreSupplementary;
      }
    }
  }

  /** Packets the MFC client did not send are noise: more of them leave the verdict alone. */
  lemma ReceivedIsNoise(rust: seq<Record>, emule: seq<Record>, noise: seq<Record>, supplementary: seq<Record>,
                        readNumber: string -> Option<int>)
    requires forall r <- noise :: DirectionOf(r) != "send"
    ensures OracleOk(rust, emule + noise, supplementary, readNumber)
       <==> OracleOk(rust, emule, supplementary, readNumber)
  {
    forall op
      ensures Sends(emule + noise, op, readNumber) <==> Sends(emule, op, readNumber)
    {
      if Sends(emule, op, readNumber) {
        var r :| r in emule && OpcodeOf(r, readNumber) == Some(op) && DirectionOf(r) == "send";
        assert r in emule + noise;
      }
    }
  }

  /** Supplementary records of opcodes that the primary stream carries change no count and no verdict. */
  lemma SupplementaryAddsOnlyNew(rust: seq<Record>, emule: seq<Record>, supplementary: seq<Record>, known: seq<Record>,
                                 readNumber: string -> Option<int>)
    requires forall r <- known :: OpcodeOf(r, readNumber).Some? ==>
               Exercises(rust, OpcodeOf(r, readNumber).value, readNumber)
    ensures forall op :: RustCount(rust, supplementary + known, op, readNumber)
                      == RustCount(rust, supplementary, op, readNumber)
    ensures OracleOk(rust, emule, supplementary + known, readNumber)
       <==> OracleOk(rust, emule, supplementary, readNumber)
    ensures StrictOk(rust, emule, supplementary + known, readNumber)
       <==> StrictOk(rust, emule, supplementary, readNumber)
  {
    forall op
      ensures RustCount(rust, supplementary + known, op, readNumber) == RustCount(rust, supplementary, op, readNumber)
      ensures Exercises(rust, op, readNumber) || Exercises(supplementary + known, op, readNumber)
         <==> Exercises(rust, op, readNumber) || Exercises(supplementary, op, readNumber)
    {
      OccurrencesAdd(supplementary, known, op, readNumber);
      OccurrencesExercise(rust, op, readNumber);
      OccurrencesExercise(known, op, readNumber);
      OccurrencesExercise(supplementary, op, readNumber);
      OccurrencesExercise(supplementary + known, op, readNumber);
    }
  }

  /** The strict verdict is the stronger of the two. */
  lemma StrictImpliesOracle(rust: seq<Record>, emule: seq<Record>, supplementary: seq<Record>,
                            readNumber: string -> Option<int>)
    requires StrictOk(rust, emule, supplementary, readNumber)
    ensures OracleOk(rust, emule, supplementary, readNumber)
  {
    forall op | Sends(emule, op, readNumber)
      ensures Exercises(rust, op, readNumber) || Exercises(supplementary, op, readNumber)
    {
      assert Exercises(emule, op, readNumber);
    }
  }

  /** How many records of each direction carry an opcode. */
  function CountFacing(records: seq<Record>, op: Opcode, readNumber: string -> Option<int>): string -> nat {
    (d: string) => Occurrences(Facing(records, d), op, readNumber)
  }

  /** The per-direction counts of an opcode, over any list of the directions met, add up to its combined count. */
  lemma {:induction false} DirectionsAddUp(directions: seq<string>, records: seq<Record>, op: Opcode,
                                           readNumber: string -> Option<int>)
    requires Distinct(directions)
    requires forall d :: Moves(records, d, readNumber) ==> d in directions
    ensures SumOver(directions, CountFacing(records, op, readNumber)) == Occurrences(records, op, readNumber)
    decreases |records|
  {
    if records == [] {
      NothingToSum(directions, op, readNumber);
    } else {
      var n := |records| - 1;
      var r := records[n];
      assert records == records[..n] + [r];
      forall d
        ensures Moves(records[..n], d, readNumber) ==> d in directions
        ensures OpcodeOf(r, readNumber).Some? && d == DirectionOf(r) ==> d in directions
      {
        MovesSnoc(records[..n], r, d, readNumber);
      }
      DirectionsAddUp(directions, records[..n], op, readNumber);
      OneMore(directions, records, op, readNumber);
    }
  }

  lemma {:induction false} NothingToSum(directions: seq<string>, op: Opcode, readNumber: string -> Option<int>)
    ensures SumOver(directions, CountFacing([], op, readNumber)) == 0
  {
    if directions != [] {
      NothingToSum(directions[..|directions| - 1], op, readNumber);
    }
  }

  /** The last record adds one to the sum when it has the opcode, in the one place of its direction. */
  lemma {:induction false} OneMore(directions: seq<string>, records: seq<Record>, op: Opcode,
                                   readNumber: string -> Option<int>)
    requires records != []
    requires Distinct(directions)
    ensures var n := |records| - 1;
            SumOver(directions, CountFacing(records, op, readNumber))
            - SumOver(directions, CountFacing(records[..n], op, readNumber))
            == if OpcodeOf(records[n], readNumber) == Some(op) && DirectionOf(records[n]) in directions then 1 else 0
    decreases |directions|
  {
    hide OpcodeOf, DirectionOf, Facing, Occurrences;
    if directions != [] {
      var m, n := |directions| - 1, |records| - 1;
      var d := directions[m];
      OneMore(directions[..m], records, op, readNumber);
      FacingOneMore(records, d, op, readNumber);
      assert directions == directions[..m] + [d];
      assert d !in directions[..m];
      var last := DirectionOf(records[n]);
      assert last in directions <==> last in directions[..m] || last == d;
    }
  }

  lemma FacingOneMore(records: seq<Record>, d: string, op: Opcode, readNumber: string -> Option<int>)
    requires records != []
    ensures var n := |records| - 1;
            Occurrences(Facing(records, d), op, readNumber)
            == Occurrences(Facing(records[..n], d), op, readNumber)
               + if OpcodeOf(records[n], readNumber) == Some(op) && DirectionOf(records[n]) == d then 1 else 0
  {
    hide OpcodeOf, DirectionOf;
    var n := |records| - 1;
    var facing := Facing(records[..n], d);
    FacingSnoc(records[..n], records[n], d);
    assert records == records[..n] + [records[n]];
    hide Facing;
    OccurrencesAdd(facing, [records[n]], op, readNumber);
    assert facing + [] == facing;
    assert Occurrences([records[n]][..0], op, readNumber) == 0;
  }
}
