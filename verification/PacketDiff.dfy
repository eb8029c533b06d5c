/**
 Comparing the packets of two clients group by group along an edit script, and the opcodes each of them uses.
 The edit script is an input: any script that tiles both sequences and whose equal blocks are equal.
 */
module PacketDiff {
  import opened Basics
  import opened Outcomes

  /** One dumped packet; a missing payload counts as an empty one. */
  datatype Packet = Packet(flow: Option<string>, direction: string, marker: Option<int>, opcode: int,
                           payload: Option<string>)

  datatype WireKey = WireKey(marker: Option<int>, opcode: int, payload: string)
  datatype Group = Group(channel: string, direction: string)
  datatype Identity = Identity(marker: int, opcode: int)

  function WireKeyOf(p: Packet): WireKey {
    WireKey(p.marker, p.opcode, p.payload.GetOr(""))
  }

  function WireKeys(ps: seq<Packet>): (keys: seq<WireKey>)
    ensures |keys| == |ps| && forall i :: 0 <= i < |ps| ==> keys[i] == WireKeyOf(ps[i])
  {
    seq(|ps|, i requires 0 <= i < |ps| => WireKeyOf(ps[i]))
  }

  /** At each place a packet of one side and one of the other with the same marker, opcode and payload. */
  predicate SamePackets(a: seq<Packet>, b: seq<Packet>) {
    && |a| == |b|
    && forall i :: 0 <= i < |a| ==>
         && a[i].marker == b[i].marker && a[i].opcode == b[i].opcode
         && a[i].payload.GetOr("") == b[i].payload.GetOr("")
  }

  /** Wire keys are equal exactly when the packets are, up to what they are labelled with. */
  lemma SameKeysSamePackets(a: seq<Packet>, b: seq<Packet>)
    ensures WireKeys(a) == WireKeys(b) <==> SamePackets(a, b)
  {
    if SamePackets(a, b) {
      assert WireKeys(a) == WireKeys(b);
    }
    if WireKeys(a) == WireKeys(b) {
      assert |a| == |WireKeys(a)| == |b|;
      forall i | 0 <= i < |a|
        ensures WireKeyOf(a[i]) == WireKeyOf(b[i])
      {
        assert WireKeys(a)[i] == WireKeys(b)[i];
      }
    }
  }

  predicate SameOpcode(a: Packet, b: Packet) {
    a.marker == b.marker && a.opcode == b.opcode
  }

  function IdentityOf(p: Packet): Identity {
    Identity(p.marker.GetOr(0), p.opcode)
  }

  /** The shared taxonomy of channels; `normalize` trims and lower-cases a flow label. */
  function CanonicalChannel(flow: Option<string>, normalize: string -> string): string {
    var name := normalize(if flow.None? || flow.value == "" then "unknown" else flow.value);
    if name == "server" then "server"
    else if name == "kad" || name == "kad_udp" || name == "kademlia" then "kad"
    else "client"
  }

  // ---------------------------------------------------------------- edit scripts

  datatype Edit = Edit(equal: bool, i1: nat, i2: nat, j1: nat, j2: nat)

  /** The script runs from the start of both sequences to `i` and `j`, and its equal blocks are equal. */
  predicate TilesTo(edits: seq<Edit>, a: seq<WireKey>, b: seq<WireKey>, i: nat, j: nat) {
    if edits == [] then i == 0 && j == 0
    else
      var e := edits[|edits| - 1];
      && e.i1 <= e.i2 == i <= |a| && e.j1 <= e.j2 == j <= |b|
      && (e.equal ==> a[e.i1..e.i2] == b[e.j1..e.j2])
      && TilesTo(edits[..|edits| - 1], a, b, e.i1, e.j1)
  }

  predicate Tiles(edits: seq<Edit>, a: seq<WireKey>, b: seq<WireKey>) {
    TilesTo(edits, a, b, |a|, |b|)
  }

  // ---------------------------------------------------------------- one group

  datatype FlowDiff = FlowDiff(
    rustCount: nat, emuleCount: nat, matched: nat, mismatches: seq<(Packet, Packet)>,
    onlyRust: seq<Packet>, onlyEmule: seq<Packet>)

  /** The differences over the first `n` offsets of a replaced block. */
  function PairUp(d: FlowDiff, rust: seq<Packet>, emule: seq<Packet>, n: nat): FlowDiff
    requires n <= |rust| && n <= |emule|
  {
    if n == 0 then d
    else
      var before, r, e := PairUp(d, rust, emule, n - 1), rust[n - 1], emule[n - 1];
      if SameOpcode(r, e) then before.(mismatches := before.mismatches + [(r, e)])
      else before.(onlyRust := before.onlyRust + [r], onlyEmule := before.onlyEmule + [e])
  }

  /** A replaced block: packets are paired by offset, and what is left over is one-sided. */
  function ReplaceBlock(d: FlowDiff, rust: seq<Packet>, emule: seq<Packet>): FlowDiff {
    var n := Min(|rust|, |emule|);
    var paired := PairUp(d, rust, emule, n);
    paired.(onlyRust := paired.onlyRust + rust[n..], onlyEmule := paired.onlyEmule + emule[n..])
  }

  function DiffTo(rust: seq<Packet>, emule: seq<Packet>, edits: seq<Edit>, i: nat, j: nat): FlowDiff
    requires TilesTo(edits, WireKeys(rust), WireKeys(emule), i, j)
  {
    if edits == [] then FlowDiff(|rust|, |emule|, 0, [], [], [])
    else
      var e := edits[|edits| - 1];
      var before := DiffTo(rust, emule, edits[..|edits| - 1], e.i1, e.j1);
      if e.equal then before.(matched := before.matched + (e.i2 - e.i1))
      else ReplaceBlock(before, rust[e.i1..e.i2], emule[e.j1..e.j2])
  }

  function DiffGroup(rust: seq<Packet>, emule: seq<Packet>, edits: seq<Edit>): FlowDiff
    requires Tiles(edits, WireKeys(rust), WireKeys(emule))
  {
    DiffTo(rust, emule, edits, |rust|, |emule|)
  }

  lemma {:induction false} TilesPrefix(edits: seq<Edit>, a: seq<WireKey>, b: seq<WireKey>, i: nat, j: nat, k: nat)
    returns (p: nat, q: nat)
    requires TilesTo(edits, a, b, i, j) && k <= |edits|
    ensures p <= i && q <= j && TilesTo(edits[..k], a, b, p, q)
    ensures k < |edits| ==> edits[k].i1 == p && edits[k].j1 == q
    ensures k == |edits| ==> p == i && q == j
  {
    if k == |edits| {
      assert edits[..k] == edits;
      p, q := i, j;
    } else {
      var e, init := edits[|edits| - 1], edits[..|edits| - 1];
      p, q := TilesPrefix(init, a, b, e.i1, e.j1, k);
      assert init[..k] == edits[..k];
    }
  }

  /** Compares the packets of one group along an edit script. */
  method DiffOneGroup(rust: seq<Packet>, emule: seq<Packet>, edits: seq<Edit>) returns (d: FlowDiff)
    requires Tiles(edits, WireKeys(rust), WireKeys(emule))
    ensures d == DiffGroup(rust, emule, edits)
  {
    hide WireKeys, ReplaceBlock;
    d := FlowDiff(|rust|, |emule|, 0, [], [], []);
    ghost var p: nat, q: nat := 0, 0;
    for k := 0 to |edits|
      invariant p <= |rust| && q <= |emule| && TilesTo(edits[..k], WireKeys(rust), WireKeys(emule), p, q)
      invariant d == DiffTo(rust, emule, edits[..k], p, q)
      invariant k == |edits| ==> p == |rust| && q == |emule|
    {
      var e := edits[k];
      ghost var p0, q0 := TilesPrefix(edits, WireKeys(rust), WireKeys(emule), |rust|, |emule|, k);
      ghost var p1, q1 := TilesPrefix(edits, WireKeys(rust), WireKeys(emule), |rust|, |emule|, k + 1);
      assert edits[..k + 1][..k] == edits[..k] && edits[..k + 1][k] == e;
      TilesEnd(edits[..k], WireKeys(rust), WireKeys(emule), p, q, p0, q0);
      p, q := p1, q1;
      if e.equal {
        d := d.(matched := d.matched + (e.i2 - e.i1));
        continue;
      }
      d := DiffBlock(d, rust[e.i1..e.i2], emule[e.j1..e.j2]);
    }
    assert edits[..|edits|] == edits;
  }

  /** A script ends in one place only. */
  lemma TilesEnd(edits: seq<Edit>, a: seq<WireKey>, b: seq<WireKey>, i: nat, j: nat, p: nat, q: nat)
    requires TilesTo(edits, a, b, i, j) && TilesTo(edits, a, b, p, q)
    ensures i == p && j == q
  {
  }

  method DiffBlock(before: FlowDiff, rust: seq<Packet>, emule: seq<Packet>) returns (d: FlowDiff)
    ensures d == ReplaceBlock(before, rust, emule)
  {
    var paired := if |rust| < |emule| then |rust| else |emule|;
    d := before;
    for offset := 0 to paired
      invariant d == PairUp(before, rust, emule, offset)
    {
      if SameOpcode(rust[offset], emule[offset]) {
        d := d.(mismatches := d.mismatches + [(rust[offset], emule[offset])]);
      } else {
        d := d.(onlyRust := d.onlyRust + [rust[offset]]);
        d := d.(onlyEmule := d.onlyEmule + [emule[offset]]);
      }
    }
    d := d.(onlyRust := d.onlyRust + rust[paired..]);
    d := d.(onlyEmule := d.onlyEmule + emule[paired..]);
  }

  // ---------------------------------------------------------------- nothing is lost or counted twice

  function Firsts(pairs: seq<(Packet, Packet)>): seq<Packet> {
    seq(|pairs|, i requires 0 <= i < |pairs| => pairs[i].0)
  }

  function Seconds(pairs: seq<(Packet, Packet)>): seq<Packet> {
    seq(|pairs|, i requires 0 <= i < |pairs| => pairs[i].1)
  }

  /** The rust packets a difference accounts for, apart from the matched ones. */
  function RustSide(d: FlowDiff): multiset<Packet> {
    multiset(Firsts(d.mismatches)) + multiset(d.onlyRust)
  }

  function EmuleSide(d: FlowDiff): multiset<Packet> {
    multiset(Seconds(d.mismatches)) + multiset(d.onlyEmule)
  }

  lemma AddMismatch(d: FlowDiff, r: Packet, e: Packet)
    ensures var more := d.(mismatches := d.mismatches + [(r, e)]);
            RustSide(more) == RustSide(d) + multiset{r} && EmuleSide(more) == EmuleSide(d) + multiset{e}
  {
    assert Firsts(d.mismatches + [(r, e)]) == Firsts(d.mismatches) + [r];
    assert Seconds(d.mismatches + [(r, e)]) == Seconds(d.mismatches) + [e];
  }

  lemma AddOneSided(d: FlowDiff, rust: seq<Packet>, emule: seq<Packet>)
    ensures var more := d.(onlyRust := d.onlyRust + rust, onlyEmule := d.onlyEmule + emule);
            RustSide(more) == RustSide(d) + multiset(rust) && EmuleSide(more) == EmuleSide(d) + multiset(emule)
  {
  }

  lemma UptoNext<T>(xs: seq<T>, n: nat)
    requires 0 < n <= |xs|
    ensures multiset(xs[..n]) == multiset(xs[..n - 1]) + multiset{xs[n - 1]}
  {
    assert xs[..n] == xs[..n - 1] + [xs[n - 1]];
  }

  lemma {:induction false} PairUpAccounts(d: FlowDiff, rust: seq<Packet>, emule: seq<Packet>, n: nat)
    requires n <= |rust| && n <= |emule|
    ensures RustSide(PairUp(d, rust, emule, n)) == RustSide(d) + multiset(rust[..n])
    ensures EmuleSide(PairUp(d, rust, emule, n)) == EmuleSide(d) + multiset(emule[..n])
  {
    hide RustSide, EmuleSide, SameOpcode;
    if n > 0 {
      var before, r, e := PairUp(d, rust, emule, n - 1), rust[n - 1], emule[n - 1];
      PairUpAccounts(d, rust, emule, n - 1);
      UptoNext(rust, n);
      UptoNext(emule, n);
      if SameOpcode(r, e) {
        AddMismatch(before, r, e);
      } else {
        AddOneSided(before, [r], [e]);
      }
    } else {
      assert rust[..0] == [] && emule[..0] == [];
    }
  }

  lemma {:induction false} PairUpKeepsCounts(d: FlowDiff, rust: seq<Packet>, emule: seq<Packet>, n: nat)
    requires n <= |rust| && n <= |emule|
    ensures var r := PairUp(d, rust, emule, n);
            r.matched == d.matched && r.rustCount == d.rustCount && r.emuleCount == d.emuleCount
  {
    if n > 0 {
      PairUpKeepsCounts(d, rust, emule, n - 1);
    }
  }

  lemma ReplaceBlockAccounts(d: FlowDiff, rust: seq<Packet>, emule: seq<Packet>)
    ensures var r := ReplaceBlock(d, rust, emule);
            RustSide(r) == RustSide(d) + multiset(rust) && EmuleSide(r) == EmuleSide(d) + multiset(emule)
  {
    hide RustSide, EmuleSide, PairUp;
    var n := Min(|rust|, |emule|);
    PairUpAccounts(d, rust, emule, n);
    AddOneSided(PairUp(d, rust, emule, n), rust[n..], emule[n..]);
    CutInTwo(rust, n);
    CutInTwo(emule, n);
  }

  lemma CutInTwo<T>(xs: seq<T>, n: nat)
    requires n <= |xs|
    ensures multiset(xs) == multiset(xs[..n]) + multiset(xs[n..])
  {
    assert xs == xs[..n] + xs[n..];
  }

  lemma ReplaceBlockKeepsCounts(d: FlowDiff, rust: seq<Packet>, emule: seq<Packet>)
    ensures var r := ReplaceBlock(d, rust, emule);
            r.matched == d.matched && r.rustCount == d.rustCount && r.emuleCount == d.emuleCount
  {
    PairUpKeepsCounts(d, rust, emule, Min(|rust|, |emule|));
  }

  /** The rust packets that lie outside the equal blocks. */
  function RustOutside(rust: seq<Packet>, edits: seq<Edit>): multiset<Packet> {
    if edits == [] then multiset{}
    else
      var e, before := edits[|edits| - 1], RustOutside(rust, edits[..|edits| - 1]);
      if !e.equal && e.i1 <= e.i2 <= |rust| then before + multiset(rust[e.i1..e.i2]) else before
  }

  function EmuleOutside(emule: seq<Packet>, edits: seq<Edit>): multiset<Packet> {
    if edits == [] then multiset{}
    else
      var e, before := edits[|edits| - 1], EmuleOutside(emule, edits[..|edits| - 1]);
      if !e.equal && e.j1 <= e.j2 <= |emule| then before + multiset(emule[e.j1..e.j2]) else before
  }

  /** Over any prefix of a script the reported packets are those outside the equal blocks. */
  lemma {:induction false} DiffToReports(rust: seq<Packet>, emule: seq<Packet>, edits: seq<Edit>, i: nat, j: nat)
    requires TilesTo(edits, WireKeys(rust), WireKeys(emule), i, j)
    ensures RustSide(DiffTo(rust, emule, edits, i, j)) == RustOutside(rust, edits)
    ensures EmuleSide(DiffTo(rust, emule, edits, i, j)) == EmuleOutside(emule, edits)
  {
    hide *;
    if edits == [] {
      NothingReported(rust, emule, edits, i, j);
    } else {
      DiffToStep(rust, emule, edits, i, j);
      var e, init := edits[|edits| - 1], edits[..|edits| - 1];
      var before := DiffTo(rust, emule, init, e.i1, e.j1);
      DiffToReports(rust, emule, init, e.i1, e.j1);
      if e.equal {
        MatchedOnly(before, e.i2 - e.i1);
      } else {
        ReplaceBlockAccounts(before, rust[e.i1..e.i2], emule[e.j1..e.j2]);
      }
    }
  }

  lemma NothingReported(rust: seq<Packet>, emule: seq<Packet>, edits: seq<Edit>, i: nat, j: nat)
    requires edits == [] && TilesTo(edits, WireKeys(rust), WireKeys(emule), i, j)
    ensures RustSide(DiffTo(rust, emule, edits, i, j)) == RustOutside(rust, edits)
    ensures EmuleSide(DiffTo(rust, emule, edits, i, j)) == EmuleOutside(emule, edits)
  {
    var d := FlowDiff(|rust|, |emule|, 0, [], [], []);
    assert RustSide(d) == multiset{} && EmuleSide(d) == multiset{};
  }

  /** One more block of a script. */
  lemma DiffToStep(rust: seq<Packet>, emule: seq<Packet>, edits: seq<Edit>, i: nat, j: nat)
    requires edits != [] && TilesTo(edits, WireKeys(rust), WireKeys(emule), i, j)
    ensures var e, init := edits[|edits| - 1], edits[..|edits| - 1];
            && e.i1 <= e.i2 == i <= |rust| && e.j1 <= e.j2 == j <= |emule|
            && TilesTo(init, WireKeys(rust), WireKeys(emule), e.i1, e.j1)
            && var before := DiffTo(rust, emule, init, e.i1, e.j1);
            if e.equal then
              && DiffTo(rust, emule, edits, i, j) == before.(matched := before.matched + (e.i2 - e.i1))
              && RustOutside(rust, edits) == RustOutside(rust, init)
              && EmuleOutside(emule, edits) == EmuleOutside(emule, init)
            else
              && DiffTo(rust, emule, edits, i, j) == ReplaceBlock(before, rust[e.i1..e.i2], emule[e.j1..e.j2])
              && RustOutside(rust, edits) == RustOutside(rust, init) + multiset(rust[e.i1..e.i2])
              && EmuleOutside(emule, edits) == EmuleOutside(emule, init) + multiset(emule[e.j1..e.j2])
  {
    hide ReplaceBlock;
  }

  /** Over any prefix of a script the counts add up. */
  lemma {:induction false} DiffToConserves(rust: seq<Packet>, emule: seq<Packet>, edits: seq<Edit>, i: nat, j: nat)
    requires TilesTo(edits, WireKeys(rust), WireKeys(emule), i, j)
    ensures var d := DiffTo(rust, emule, edits, i, j);
            && d.matched + |d.mismatches| + |d.onlyRust| == i && d.matched + |d.mismatches| + |d.onlyEmule| == j
            && d.rustCount == |rust| && d.emuleCount == |emule|
  {
    hide WireKeys, ReplaceBlock;
    if edits != [] {
      var e, init := edits[|edits| - 1], edits[..|edits| - 1];
      var before := DiffTo(rust, emule, init, e.i1, e.j1);
      DiffToConserves(rust, emule, init, e.i1, e.j1);
      EqualLengths(WireKeys(rust), WireKeys(emule), e);
      if !e.equal {
        ReplaceBlockCounts(before, rust[e.i1..e.i2], emule[e.j1..e.j2]);
        assert |rust[e.i1..e.i2]| == e.i2 - e.i1 && |emule[e.j1..e.j2]| == e.j2 - e.j1;
      }
    }
  }

  lemma ReplaceBlockCounts(d: FlowDiff, rust: seq<Packet>, emule: seq<Packet>)
    ensures var r := ReplaceBlock(d, rust, emule);
            && |r.mismatches| + |r.onlyRust| == |d.mismatches| + |d.onlyRust| + |rust|
            && |r.mismatches| + |r.onlyEmule| == |d.mismatches| + |d.onlyEmule| + |emule|
            && r.matched == d.matched && r.rustCount == d.rustCount && r.emuleCount == d.emuleCount
  {
    hide RustSide, EmuleSide, ReplaceBlock;
    ReplaceBlockAccounts(d, rust, emule);
    ReplaceBlockKeepsCounts(d, rust, emule);
    SidesCount(d);
    SidesCount(ReplaceBlock(d, rust, emule));
    assert |multiset(rust)| == |rust| && |multiset(emule)| == |emule|;
  }

  lemma MatchedOnly(d: FlowDiff, n: nat)
    ensures RustSide(d.(matched := d.matched + n)) == RustSide(d)
    ensures EmuleSide(d.(matched := d.matched + n)) == EmuleSide(d)
  {
  }

  lemma SidesCount(d: FlowDiff)
    ensures |RustSide(d)| == |d.mismatches| + |d.onlyRust| && |EmuleSide(d)| == |d.mismatches| + |d.onlyEmule|
  {
  }

  lemma EqualLengths(a: seq<WireKey>, b: seq<WireKey>, e: Edit)
    requires e.i1 <= e.i2 <= |a| && e.j1 <= e.j2 <= |b|
    ensures a[e.i1..e.i2] == b[e.j1..e.j2] ==> e.i2 - e.i1 == e.j2 - e.j1
  {
    assert |a[e.i1..e.i2]| == e.i2 - e.i1 && |b[e.j1..e.j2]| == e.j2 - e.j1;
  }

  /** In every group, matched and mismatched and one-sided packets together are each side's packets. */
  lemma GroupConserves(rust: seq<Packet>, emule: seq<Packet>, edits: seq<Edit>)
    requires Tiles(edits, WireKeys(rust), WireKeys(emule))
    ensures var d := DiffGroup(rust, emule, edits);
            && d.matched + |d.mismatches| + |d.onlyRust| == |rust| == d.rustCount
            && d.matched + |d.mismatches| + |d.onlyEmule| == |emule| == d.emuleCount
            && RustSide(d) == RustOutside(rust, edits) && EmuleSide(d) == EmuleOutside(emule, edits)
  {
    DiffToConserves(rust, emule, edits, |rust|, |emule|);
    DiffToReports(rust, emule, edits, |rust|, |emule|);
  }

  /** Every reported payload mismatch pairs two packets of one opcode, and no other pair of a block does. */
  lemma {:induction false} MismatchesShareOpcode(rust: seq<Packet>, emule: seq<Packet>, edits: seq<Edit>, i: nat,
                                                 j: nat)
    requires TilesTo(edits, WireKeys(rust), WireKeys(emule), i, j)
    ensures forall m <- DiffTo(rust, emule, edits, i, j).mismatches ::
              m.0.marker == m.1.marker && m.0.opcode == m.1.opcode
    ensures |DiffTo(rust, emule, edits, i, j).mismatches| == PairsOfOneOpcode(rust, emule, edits)
  {
    hide WireKeys, ReplaceBlock, OneOpcode;
    if edits != [] {
      var e, init := edits[|edits| - 1], edits[..|edits| - 1];
      MismatchesShareOpcode(rust, emule, init, e.i1, e.j1);
      var before, rustPart, emulePart := DiffTo(rust, emule, init, e.i1, e.j1), rust[e.i1..e.i2], emule[e.j1..e.j2];
      assert DiffTo(rust, emule, edits, i, j)
          == if e.equal then before.(matched := before.matched + (e.i2 - e.i1))
             else ReplaceBlock(before, rustPart, emulePart);
      assert PairsOfOneOpcode(rust, emule, edits)
          == PairsOfOneOpcode(rust, emule, init)
             + if e.equal then 0 else OneOpcode(rustPart, emulePart, Min(|rustPart|, |emulePart|));
      hide DiffTo, PairsOfOneOpcode, TilesTo;
      if !e.equal {
        ReplaceBlockMismatches(before, rustPart, emulePart);
      }
    }
  }

  lemma ReplaceBlockMismatches(d: FlowDiff, rust: seq<Packet>, emule: seq<Packet>)
    requires forall m <- d.mismatches :: m.0.marker == m.1.marker && m.0.opcode == m.1.opcode
    ensures var r := ReplaceBlock(d, rust, emule);
            && |r.mismatches| == |d.mismatches| + OneOpcode(rust, emule, Min(|rust|, |emule|))
            && forall m <- r.mismatches :: m.0.marker == m.1.marker && m.0.opcode == m.1.opcode
  {
    PairUpMismatches(d, rust, emule, Min(|rust|, |emule|));
  }

  /** How many of the first `n` offsets of two blocks hold packets of one opcode. */
  function OneOpcode(rust: seq<Packet>, emule: seq<Packet>, n: nat): nat
    requires n <= |rust| && n <= |emule|
  {
    if n == 0 then 0 else OneOpcode(rust, emule, n - 1) + if SameOpcode(rust[n - 1], emule[n - 1]) then 1 else 0
  }

  /** The offsets, of the first `n`, at which the markers and the opcodes are equal. */
  function OffsetsOfOneOpcode(rust: seq<Packet>, emule: seq<Packet>, n: nat): set<nat>
    requires n <= |rust| && n <= |emule|
  {
    set k: nat | k < n && rust[k].marker == emule[k].marker && rust[k].opcode == emule[k].opcode
  }

  lemma {:induction false} OneOpcodeCounts(rust: seq<Packet>, emule: seq<Packet>, n: nat)
    requires n <= |rust| && n <= |emule|
    ensures OneOpcode(rust, emule, n) == |OffsetsOfOneOpcode(rust, emule, n)|
  {
    if n > 0 {
      OneOpcodeCounts(rust, emule, n - 1);
      OneMoreOffset(rust, emule, n - 1);
      hide OffsetsOfOneOpcode, SameOpcode;
    }
  }

  lemma OneMoreOffset(rust: seq<Packet>, emule: seq<Packet>, n: nat)
    requires n < |rust| && n < |emule|
    ensures n !in OffsetsOfOneOpcode(rust, emule, n)
    ensures OffsetsOfOneOpcode(rust, emule, n + 1) ==
            OffsetsOfOneOpcode(rust, emule, n) + if SameOpcode(rust[n], emule[n]) then {n} else {}
  {
  }

  function PairsOfOneOpcode(rust: seq<Packet>, emule: seq<Packet>, edits: seq<Edit>): nat {
    if edits == [] then 0
    else
      var e, before := edits[|edits| - 1], PairsOfOneOpcode(rust, emule, edits[..|edits| - 1]);
      if !e.equal && e.i1 <= e.i2 <= |rust| && e.j1 <= e.j2 <= |emule| then
        before + OneOpcode(rust[e.i1..e.i2], emule[e.j1..e.j2], Min(e.i2 - e.i1, e.j2 - e.j1))
      else before
  }

  lemma {:induction false} PairUpMismatches(d: FlowDiff, rust: seq<Packet>, emule: seq<Packet>, n: nat)
    requires n <= |rust| && n <= |emule|
    requires forall m <- d.mismatches :: m.0.marker == m.1.marker && m.0.opcode == m.1.opcode
    ensures var paired := PairUp(d, rust, emule, n);
            && |paired.mismatches| == |d.mismatches| + OneOpcode(rust, emule, n)
            && forall m <- paired.mismatches :: m.0.marker == m.1.marker && m.0.opcode == m.1.opcode
  {
    if n > 0 {
      PairUpMismatches(d, rust, emule, n - 1);
    }
  }

  predicate IsClean(d: FlowDiff) {
    d.mismatches == [] && d.onlyRust == [] && d.onlyEmule == []
  }

  lemma ReplaceBlockClean(d: FlowDiff, rust: seq<Packet>, emule: seq<Packet>)
    ensures IsClean(ReplaceBlock(d, rust, emule)) <==> IsClean(d) && rust == [] && emule == []
  {
    hide ReplaceBlock;
    ReplaceBlockCounts(d, rust, emule);
  }

  /** A clean group has the same wire keys on both sides, in the same order. */
  lemma {:induction false} CleanMeansSame(rust: seq<Packet>, emule: seq<Packet>, edits: seq<Edit>, i: nat, j: nat)
    requires TilesTo(edits, WireKeys(rust), WireKeys(emule), i, j) && IsClean(DiffTo(rust, emule, edits, i, j))
    ensures i <= |rust| && j <= |emule| && WireKeys(rust)[..i] == WireKeys(emule)[..j]
  {
    if edits != [] {
      hide WireKeys, ReplaceBlock;
      var e, init := edits[|edits| - 1], edits[..|edits| - 1];
      var a, b := WireKeys(rust), WireKeys(emule);
      DiffToStep(rust, emule, edits, i, j);
      assert e.equal ==> a[e.i1..e.i2] == b[e.j1..e.j2];
      hide DiffTo, RustOutside, EmuleOutside, TilesTo;
      if !e.equal {
        ReplaceBlockClean(DiffTo(rust, emule, init, e.i1, e.j1), rust[e.i1..e.i2], emule[e.j1..e.j2]);
        assert |rust[e.i1..e.i2]| == 0 && |emule[e.j1..e.j2]| == 0;
        assert a[e.i1..e.i2] == [] && b[e.j1..e.j2] == [];
      }
      CleanMeansSame(rust, emule, init, e.i1, e.j1);
      ExtendPrefix(a, b, e.i1, e.i2, e.j1, e.j2);
    }
  }

  lemma ExtendPrefix(a: seq<WireKey>, b: seq<WireKey>, i1: nat, i2: nat, j1: nat, j2: nat)
    requires i1 <= i2 <= |a| && j1 <= j2 <= |b| && a[..i1] == b[..j1] && a[i1..i2] == b[j1..j2]
    ensures a[..i2] == b[..j2]
  {
    assert a[..i2] == a[..i1] + a[i1..i2] && b[..j2] == b[..j1] + b[j1..j2];
  }

  predicate IsEqualOrEmpty(e: Edit) {
    e.equal || (e.i1 == e.i2 && e.j1 == e.j2)
  }

  /** A group is clean exactly when its script has nothing outside equal blocks. */
  lemma {:induction false} CleanIffOnlyEqual(rust: seq<Packet>, emule: seq<Packet>, edits: seq<Edit>, i: nat, j: nat)
    requires TilesTo(edits, WireKeys(rust), WireKeys(emule), i, j)
    ensures IsClean(DiffTo(rust, emule, edits, i, j)) <==>
            forall k :: 0 <= k < |edits| ==> IsEqualOrEmpty(edits[k])
  {
    if edits != [] {
      hide WireKeys, ReplaceBlock;
      var n := |edits| - 1;
      var e, init := edits[n], edits[..n];
      CleanIffOnlyEqual(rust, emule, init, e.i1, e.j1);
      BlockClean(rust, emule, edits, i, j);
      hide DiffTo, TilesTo, IsClean, IsEqualOrEmpty;
      assert forall k :: 0 <= k < n ==> init[k] == edits[k];
    }
  }

  lemma BlockClean(rust: seq<Packet>, emule: seq<Packet>, edits: seq<Edit>, i: nat, j: nat)
    requires edits != [] && TilesTo(edits, WireKeys(rust), WireKeys(emule), i, j)
    ensures var e, init := edits[|edits| - 1], edits[..|edits| - 1];
            IsClean(DiffTo(rust, emule, edits, i, j)) <==>
            IsClean(DiffTo(rust, emule, init, e.i1, e.j1)) && IsEqualOrEmpty(e)
  {
    hide WireKeys, ReplaceBlock;
    var e, init := edits[|edits| - 1], edits[..|edits| - 1];
    DiffToStep(rust, emule, edits, i, j);
    hide DiffTo, RustOutside, EmuleOutside;
    if !e.equal {
      ReplaceBlockClean(DiffTo(rust, emule, init, e.i1, e.j1), rust[e.i1..e.i2], emule[e.j1..e.j2]);
      assert |rust[e.i1..e.i2]| == e.i2 - e.i1 && |emule[e.j1..e.j2]| == e.j2 - e.j1;
    }
  }
}
