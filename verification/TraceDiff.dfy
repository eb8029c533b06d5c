/** Two whole traces: the packet report over all groups, the opcode coverage, and how their verdicts relate. */
module TraceDiff {
  import opened Basics
  import opened Outcomes
  import opened PacketDiff

  /** The packets of one group, in order. */
  function InGroup(trace: seq<Packet>, g: Group, groupOf: Packet -> Group): seq<Packet> {
    if trace == [] then []
    else
      var init, p := InGroup(trace[..|trace| - 1], g, groupOf), trace[|trace| - 1];
      if groupOf(p) == g then init + [p] else init
  }

  /** The grouping of the packet comparison: canonical channel and direction. */
  function ByChannel(normalize: string -> string): Packet -> Group {
    (p: Packet) => Group(CanonicalChannel(p.flow, normalize), p.direction)
  }

  /** The grouping of one packet family: direction only. */
  function ByDirection(family: string): Packet -> Group {
    (p: Packet) => Group(family, p.direction)
  }

  // ---------------------------------------------------------------- groups partition a trace

  predicate CoversTrace(order: seq<Group>, trace: seq<Packet>, groupOf: Packet -> Group) {
    forall i :: 0 <= i < |trace| ==> groupOf(trace[i]) in order
  }

  lemma {:induction false} SumSplits(order: seq<Group>, f: Group -> nat, a: Group -> nat, b: Group -> nat)
    requires forall g :: f(g) == a(g) + b(g)
    ensures SumOver(order, f) == SumOver(order, a) + SumOver(order, b)
  {
    if order != [] {
      SumSplits(order[..|order| - 1], f, a, b);
    }
  }

  lemma {:induction false} SumOfOne(order: seq<Group>, g: Group)
    requires Distinct(order)
    ensures SumOver(order, (h: Group) => if h == g then 1 else 0) == if g in order then 1 else 0
  {
    if order != [] {
      var n := |order| - 1;
      SumOfOne(order[..n], g);
      assert order == order[..n] + [order[n]];
    }
  }

  lemma {:induction false} SumOfNone(order: seq<Group>, f: Group -> nat)
    requires forall g :: f(g) == 0
    ensures SumOver(order, f) == 0
  {
    if order != [] {
      SumOfNone(order[..|order| - 1], f);
    }
  }

  /** Each packet of a trace is in exactly one of the groups listed. */
  lemma {:induction false} GroupsPartition(trace: seq<Packet>, order: seq<Group>, groupOf: Packet -> Group)
    requires Distinct(order) && CoversTrace(order, trace, groupOf)
    ensures SumOver(order, (g: Group) => |InGroup(trace, g, groupOf)|) == |trace|
  {
    if trace == [] {
      SumOfNone(order, (g: Group) => |InGroup(trace, g, groupOf)|);
    } else {
      var init, p := trace[..|trace| - 1], trace[|trace| - 1];
      GroupsPartition(init, order, groupOf);
      SumOfOne(order, groupOf(p));
      SumSplits(order, (g: Group) => |InGroup(trace, g, groupOf)|, (g: Group) => |InGroup(init, g, groupOf)|,
                (h: Group) => if h == groupOf(p) then 1 else 0);
    }
  }

  // ---------------------------------------------------------------- the packet report

  datatype Members = Members(rust: seq<Packet>, emule: seq<Packet>)

  datatype Report = Report(
    order: seq<Group>, flows: map<Group, FlowDiff>,
    matched: nat, mismatches: nat, onlyRust: nat, onlyEmule: nat, ok: bool)

  /** The groups seen so far, and which packets each holds. */
  ghost predicate Grouped(groups: map<Group, Members>, order: seq<Group>, rust: seq<Packet>, emule: seq<Packet>,
                          groupOf: Packet -> Group)
  {
    && Distinct(order) && (forall g :: g in groups <==> g in order)
    && CoversTrace(order, rust, groupOf) && CoversTrace(order, emule, groupOf)
    && (forall g :: g in groups ==> groups[g] == Members(InGroup(rust, g, groupOf), InGroup(emule, g, groupOf)))
  }

  lemma {:induction false} OutsideGroups(trace: seq<Packet>, g: Group, groupOf: Packet -> Group)
    requires forall i :: 0 <= i < |trace| ==> groupOf(trace[i]) != g
    ensures InGroup(trace, g, groupOf) == []
  {
    if trace != [] {
      OutsideGroups(trace[..|trace| - 1], g, groupOf);
    }
  }

  lemma GroupNewRust(groups: map<Group, Members>, order: seq<Group>, rust: seq<Packet>, emule: seq<Packet>,
                     groupOf: Packet -> Group, p: Packet)
    requires Grouped(groups, order, rust, emule, groupOf)
    ensures var g := groupOf(p);
            var was := if g in groups then groups[g] else Members([], []);
            Grouped(groups[g := Members(was.rust + [p], was.emule)], if g in groups then order else order + [g],
                    rust + [p], emule, groupOf)
  {
    var g := groupOf(p);
    assert (rust + [p])[..|rust|] == rust;
    if g !in groups {
      OutsideGroups(rust, g, groupOf);
      OutsideGroups(emule, g, groupOf);
    }
  }

  lemma GroupNewEmule(groups: map<Group, Members>, order: seq<Group>, rust: seq<Packet>, emule: seq<Packet>,
                      groupOf: Packet -> Group, p: Packet)
    requires Grouped(groups, order, rust, emule, groupOf)
    ensures var g := groupOf(p);
            var was := if g in groups then groups[g] else Members([], []);
            Grouped(groups[g := Members(was.rust, was.emule + [p])], if g in groups then order else order + [g],
                    rust, emule + [p], groupOf)
  {
    var g := groupOf(p);
    assert (emule + [p])[..|emule|] == emule;
    if g !in groups {
      OutsideGroups(rust, g, groupOf);
      OutsideGroups(emule, g, groupOf);
    }
  }

  method GroupTraces(rust: seq<Packet>, emule: seq<Packet>, groupOf: Packet -> Group)
    returns (groups: map<Group, Members>, order: seq<Group>)
    ensures Grouped(groups, order, rust, emule, groupOf)
  {
    hide Grouped;
    NothingSeen(groupOf);
    groups, order := map[], [];
    for i := 0 to |rust|
      invariant Grouped(groups, order, rust[..i], [], groupOf)
    {
      var g := groupOf(rust[i]);
      GroupNewRust(groups, order, rust[..i], [], groupOf, rust[i]);
      assert rust[..i + 1] == rust[..i] + [rust[i]];
      var members := if g in groups then groups[g] else Members([], []);
      order := if g in groups then order else order + [g];
      groups := groups[g := Members(members.rust + [rust[i]], members.emule)];
    }
    assert rust[..|rust|] == rust;
    for i := 0 to |emule|
      invariant Grouped(groups, order, rust, emule[..i], groupOf)
    {
      var g := groupOf(emule[i]);
      GroupNewEmule(groups, order, rust, emule[..i], groupOf, emule[i]);
      assert emule[..i + 1] == emule[..i] + [emule[i]];
      var members := if g in groups then groups[g] else Members([], []);
      order := if g in groups then order else order + [g];
      groups := groups[g := Members(members.rust, members.emule + [emule[i]])];
    }
    assert emule[..|emule|] == emule;
  }

  /** Every group's script tiles that group's two sequences. */
  ghost predicate ScriptsTile(script: Group -> seq<Edit>, rust: seq<Packet>, emule: seq<Packet>,
                              groupOf: Packet -> Group)
  {
    forall g :: Tiles(script(g), WireKeys(InGroup(rust, g, groupOf)), WireKeys(InGroup(emule, g, groupOf)))
  }

  /** The report over the groups in `order`. */
  ghost predicate Reports(r: Report, script: Group -> seq<Edit>, rust: seq<Packet>, emule: seq<Packet>,
                          groupOf: Packet -> Group)
    requires ScriptsTile(script, rust, emule, groupOf)
  {
    && Distinct(r.order) && CoversTrace(r.order, rust, groupOf) && CoversTrace(r.order, emule, groupOf)
    && (forall g :: g in r.flows <==> g in r.order)
    && (forall g :: g in r.order ==>
          r.flows[g] == DiffGroup(InGroup(rust, g, groupOf), InGroup(emule, g, groupOf), script(g)))
  }

  datatype Totals = Totals(matched: nat, mismatches: nat, onlyRust: nat, onlyEmule: nat)

  function AddFlow(t: Totals, d: FlowDiff): Totals {
    Totals(t.matched + d.matched, t.mismatches + |d.mismatches|, t.onlyRust + |d.onlyRust|, t.onlyEmule + |d.onlyEmule|)
  }

  /** The totals of the groups compared so far account for their packets. */
  ghost predicate TotalsFit(done: seq<Group>, flows: map<Group, FlowDiff>, t: Totals,
                            rust: seq<Packet>, emule: seq<Packet>, groupOf: Packet -> Group)
  {
    && (forall g :: g in flows <==> g in done)
    && t.matched + t.mismatches + t.onlyRust == SumOver(done, (g: Group) => |InGroup(rust, g, groupOf)|)
    && t.matched + t.mismatches + t.onlyEmule == SumOver(done, (g: Group) => |InGroup(emule, g, groupOf)|)
    && (t.mismatches == 0 && t.onlyRust == 0 && t.onlyEmule == 0 <==> forall g :: g in flows ==> IsClean(flows[g]))
  }

  lemma TotalsFitNext(done: seq<Group>, flows: map<Group, FlowDiff>, t: Totals, g: Group, d: FlowDiff,
                      rust: seq<Packet>, emule: seq<Packet>, groupOf: Packet -> Group)
    requires TotalsFit(done, flows, t, rust, emule, groupOf) && g !in done
    requires d.matched + |d.mismatches| + |d.onlyRust| == |InGroup(rust, g, groupOf)|
    requires d.matched + |d.mismatches| + |d.onlyEmule| == |InGroup(emule, g, groupOf)|
    ensures TotalsFit(done + [g], flows[g := d], AddFlow(t, d), rust, emule, groupOf)
  {
    hide InGroup;
    assert (done + [g])[..|done|] == done;
    var more := flows[g := d];
    assert more[g] == d && forall h :: h in flows ==> h in more && more[h] == flows[h];
  }

  lemma NoTotals(rust: seq<Packet>, emule: seq<Packet>, groupOf: Packet -> Group)
    ensures TotalsFit([], map[], Totals(0, 0, 0, 0), rust, emule, groupOf)
  {
  }

  /** Runs the comparison of every group and adds up the results. */
  method DiffGroups(rust: seq<Packet>, emule: seq<Packet>, groupOf: Packet -> Group, script: Group -> seq<Edit>)
    returns (r: Report)
    requires ScriptsTile(script, rust, emule, groupOf)
    ensures Reports(r, script, rust, emule, groupOf)
    ensures r.matched + r.mismatches + r.onlyRust == |rust| && r.matched + r.mismatches + r.onlyEmule == |emule|
    ensures r.ok <==> forall g :: g in r.order ==> IsClean(r.flows[g])
  {
    hide WireKeys, DiffGroup, InGroup, Tiles, TotalsFit, IsClean;
    var groups, order := GroupTraces(rust, emule, groupOf);
    var flows: map<Group, FlowDiff> := map[];
    var totals := Totals(0, 0, 0, 0);
    NoTotals(rust, emule, groupOf);
    for i := 0 to |order|
      invariant forall g :: g in flows <==> g in order[..i]
      invariant forall g :: g in flows ==>
                  flows[g] == DiffGroup(InGroup(rust, g, groupOf), InGroup(emule, g, groupOf), script(g))
      invariant TotalsFit(order[..i], flows, totals, rust, emule, groupOf)
    {
      var g := order[i];
      assert g in groups && g !in order[..i];
      var flow := DiffOneGroup(groups[g].rust, groups[g].emule, script(g));
      GroupConserves(groups[g].rust, groups[g].emule, script(g));
      TotalsFitNext(order[..i], flows, totals, g, flow, rust, emule, groupOf);
      assert order[..i + 1] == order[..i] + [g];
      flows := flows[g := flow];
      totals := AddFlow(totals, flow);
    }
    assert order[..|order|] == order;
    r := Report(order, flows, totals.matched, totals.mismatches, totals.onlyRust, totals.onlyEmule,
                totals.mismatches == 0 && totals.onlyRust == 0 && totals.onlyEmule == 0);
    TotalsAddUp(r, totals, rust, emule, groupOf);
  }

  lemma TotalsAddUp(r: Report, t: Totals, rust: seq<Packet>, emule: seq<Packet>, groupOf: Packet -> Group)
    requires TotalsFit(r.order, r.flows, t, rust, emule, groupOf) && Distinct(r.order)
    requires CoversTrace(r.order, rust, groupOf) && CoversTrace(r.order, emule, groupOf)
    ensures t.matched + t.mismatches + t.onlyRust == |rust| && t.matched + t.mismatches + t.onlyEmule == |emule|
    ensures forall g :: g in r.order <==> g in r.flows
    ensures t.mismatches == 0 && t.onlyRust == 0 && t.onlyEmule == 0
       <==> forall g :: g in r.order ==> IsClean(r.flows[g])
  {
    GroupsPartition(rust, r.order, groupOf);
    GroupsPartition(emule, r.order, groupOf);
  }

  /** The group has the same packets on both sides, in the same order, up to what they are labelled with. */
  predicate SameWire(rust: seq<Packet>, emule: seq<Packet>, g: Group, groupOf: Packet -> Group) {
    SamePackets(InGroup(rust, g, groupOf), InGroup(emule, g, groupOf))
  }

  /** When the report is clean, every group has the same packets on both sides, in the same order. */
  lemma OkMeansSameWire(r: Report, script: Group -> seq<Edit>, rust: seq<Packet>, emule: seq<Packet>,
                        groupOf: Packet -> Group, g: Group)
    requires ScriptsTile(script, rust, emule, groupOf) && Reports(r, script, rust, emule, groupOf)
    requires forall h :: h in r.order ==> IsClean(r.flows[h])
    ensures SameWire(rust, emule, g, groupOf)
  {
    hide WireKeys, InGroup;
    var a, b := InGroup(rust, g, groupOf), InGroup(emule, g, groupOf);
    if g in r.order {
      CleanMeansSame(a, b, script(g), |a|, |b|);
      assert WireKeys(a)[..|a|] == WireKeys(a) && WireKeys(b)[..|b|] == WireKeys(b);
      SameKeysSamePackets(a, b);
    } else {
      OutsideGroups(rust, g, groupOf);
      OutsideGroups(emule, g, groupOf);
    }
  }

  // ---------------------------------------------------------------- opcode coverage

  type Counts = map<Identity, nat>

  /** How often each identity occurs. */
  function CountsOf(ps: seq<Packet>): Counts {
    if ps == [] then map[]
    else
      var init, id := CountsOf(ps[..|ps| - 1]), IdentityOf(ps[|ps| - 1]);
      init[id := (if id in init then init[id] else 0) + 1]
  }

  datatype Slot = Slot(rust: Counts, emule: Counts)

  /** What each side uses on one channel and direction. */
  datatype Channel = Channel(shared: map<Identity, (nat, nat)>, onlyRust: Counts, onlyEmule: Counts)

  function ChannelOf(rust: Counts, emule: Counts): Channel {
    Channel(
      map id | id in rust && id in emule :: (rust[id], emule[id]),
      map id | id in rust && id !in emule :: rust[id],
      map id | id in emule && id !in rust :: emule[id])
  }

  datatype Coverage = Coverage(ok: bool, oracleOk: bool, channels: map<Group, Channel>)

  /** The counts kept per group after reading some packets of both traces. */
  ghost predicate Counted(byKey: map<Group, Slot>, rust: seq<Packet>, emule: seq<Packet>, groupOf: Packet -> Group) {
    && (forall g :: g in byKey ==>
          byKey[g] == Slot(CountsOf(InGroup(rust, g, groupOf)), CountsOf(InGroup(emule, g, groupOf))))
    && (forall i :: 0 <= i < |rust| ==> groupOf(rust[i]) in byKey)
    && (forall i :: 0 <= i < |emule| ==> groupOf(emule[i]) in byKey)
  }

  function Bump(counts: Counts, id: Identity): Counts {
    counts[id := (if id in counts then counts[id] else 0) + 1]
  }

  function SlotAt(byKey: map<Group, Slot>, g: Group): Slot {
    if g in byKey then byKey[g] else Slot(map[], map[])
  }

  lemma NothingSeen(groupOf: Packet -> Group)
    ensures Grouped(map[], [], [], [], groupOf) && Counted(map[], [], [], groupOf)
  {
  }

  lemma InGroupSnoc(trace: seq<Packet>, p: Packet, g: Group, groupOf: Packet -> Group)
    ensures InGroup(trace + [p], g, groupOf)
         == if groupOf(p) == g then InGroup(trace, g, groupOf) + [p] else InGroup(trace, g, groupOf)
  {
    assert (trace + [p])[..|trace|] == trace;
  }

  lemma CountsSnoc(ps: seq<Packet>, p: Packet)
    ensures CountsOf(ps + [p]) == Bump(CountsOf(ps), IdentityOf(p))
  {
    assert (ps + [p])[..|ps|] == ps;
  }

  /** The counts kept for a group, whether or not it has been seen, are those of its packets. */
  lemma SlotFits(byKey: map<Group, Slot>, rust: seq<Packet>, emule: seq<Packet>, groupOf: Packet -> Group, g: Group)
    requires Counted(byKey, rust, emule, groupOf)
    ensures SlotAt(byKey, g) == Slot(CountsOf(InGroup(rust, g, groupOf)), CountsOf(InGroup(emule, g, groupOf)))
  {
    if g !in byKey {
      OutsideGroups(rust, g, groupOf);
      OutsideGroups(emule, g, groupOf);
    }
  }

  lemma CountNewRust(byKey: map<Group, Slot>, rust: seq<Packet>, emule: seq<Packet>, groupOf: Packet -> Group,
                     p: Packet)
    requires Counted(byKey, rust, emule, groupOf)
    ensures var g := groupOf(p); var slot := SlotAt(byKey, g);
            Counted(byKey[g := slot.(rust := Bump(slot.rust, IdentityOf(p)))], rust + [p], emule, groupOf)
  {
    hide InGroup, CountsOf, SlotAt, Bump;
    SlotFits(byKey, rust, emule, groupOf, groupOf(p));
    CountsSnoc(InGroup(rust, groupOf(p), groupOf), p);
    forall g: Group {
      InGroupSnoc(rust, p, g, groupOf);
    }
  }

  lemma CountNewEmule(byKey: map<Group, Slot>, rust: seq<Packet>, emule: seq<Packet>, groupOf: Packet -> Group,
                      p: Packet)
    requires Counted(byKey, rust, emule, groupOf)
    ensures var g := groupOf(p); var slot := SlotAt(byKey, g);
            Counted(byKey[g := slot.(emule := Bump(slot.emule, IdentityOf(p)))], rust, emule + [p], groupOf)
  {
    hide InGroup, CountsOf, SlotAt, Bump;
    SlotFits(byKey, rust, emule, groupOf, groupOf(p));
    CountsSnoc(InGroup(emule, groupOf(p), groupOf), p);
    forall g: Group {
      InGroupSnoc(emule, p, g, groupOf);
    }
  }

  method CountOpcodes(rust: seq<Packet>, emule: seq<Packet>, groupOf: Packet -> Group)
    returns (byKey: map<Group, Slot>)
    ensures Counted(byKey, rust, emule, groupOf)
  {
    hide Counted;
    NothingSeen(groupOf);
    byKey := map[];
    for i := 0 to |rust|
      invariant Counted(byKey, rust[..i], [], groupOf)
    {
      var g := groupOf(rust[i]);
      var slot := SlotAt(byKey, g);
      CountNewRust(byKey, rust[..i], [], groupOf, rust[i]);
      assert rust[..i + 1] == rust[..i] + [rust[i]];
      byKey := byKey[g := slot.(rust := Bump(slot.rust, IdentityOf(rust[i])))];
    }
    assert rust[..|rust|] == rust;
    for i := 0 to |emule|
      invariant Counted(byKey, rust, emule[..i], groupOf)
    {
      var g := groupOf(emule[i]);
      var slot := SlotAt(byKey, g);
      CountNewEmule(byKey, rust, emule[..i], groupOf, emule[i]);
      assert emule[..i + 1] == emule[..i] + [emule[i]];
      byKey := byKey[g := slot.(emule := Bump(slot.emule, IdentityOf(emule[i])))];
    }
    assert emule[..|emule|] == emule;
  }

  /** The identities a trace uses in a group. */
  function Uses(trace: seq<Packet>, g: Group, groupOf: Packet -> Group): set<Identity> {
    set p | p in InGroup(trace, g, groupOf) :: IdentityOf(p)
  }

  lemma {:induction false} CountsKeys(ps: seq<Packet>)
    ensures CountsOf(ps).Keys == set p | p in ps :: IdentityOf(p)
  {
    if ps != [] {
      CountsKeys(ps[..|ps| - 1]);
      assert ps == ps[..|ps| - 1] + [ps[|ps| - 1]];
    }
  }

  /** Compares the opcode sets of the two traces, group by group. */
  method OpcodeCoverage(rust: seq<Packet>, emule: seq<Packet>, groupOf: Packet -> Group) returns (c: Coverage)
    ensures c.ok <==> forall g :: Uses(rust, g, groupOf) == Uses(emule, g, groupOf)
    ensures c.oracleOk <==> forall g :: Uses(emule, g, groupOf) <= Uses(rust, g, groupOf)
    ensures forall g :: g in c.channels ==>
              c.channels[g] == ChannelOf(CountsOf(InGroup(rust, g, groupOf)), CountsOf(InGroup(emule, g, groupOf)))
    ensures forall p :: p in rust || p in emule ==> groupOf(p) in c.channels
  {
    hide InGroup, CountsOf, ChannelOf;
    var byKey := CountOpcodes(rust, emule, groupOf);
    CoverageMeans(byKey, rust, emule, groupOf);
    c := CompareSlots(byKey);
  }

  method CompareSlots(byKey: map<Group, Slot>) returns (c: Coverage)
    ensures c.ok <==> forall g :: g in byKey ==> byKey[g].rust.Keys == byKey[g].emule.Keys
    ensures c.oracleOk <==> forall g :: g in byKey ==> byKey[g].emule.Keys <= byKey[g].rust.Keys
    ensures c.channels == map g | g in byKey :: ChannelOf(byKey[g].rust, byKey[g].emule)
  {
    hide ChannelOf;
    var channels: map<Group, Channel> := map[];
    var allOk, oracleOk := true, true;
    var todo := byKey.Keys;
    while todo != {}
      invariant todo <= byKey.Keys && channels.Keys == byKey.Keys - todo
      invariant forall g :: g in channels ==> channels[g] == ChannelOf(byKey[g].rust, byKey[g].emule)
      invariant allOk <==> forall g :: g in byKey && g !in todo ==> byKey[g].rust.Keys == byKey[g].emule.Keys
      invariant oracleOk <==> forall g :: g in byKey && g !in todo ==> byKey[g].emule.Keys <= byKey[g].rust.Keys
      decreases |todo|
    {
      var g :| g in todo;
      var channel := ChannelOf(byKey[g].rust, byKey[g].emule);
      OneSided(byKey[g].rust, byKey[g].emule);
      if channel.onlyRust != map[] || channel.onlyEmule != map[] {
        allOk := false;
      }
      if channel.onlyEmule != map[] {
        oracleOk := false;
      }
      channels := channels[g := channel];
      todo := todo - {g};
    }
    c := Coverage(allOk, oracleOk, channels);
  }

  lemma OneSided(rust: Counts, emule: Counts)
    ensures ChannelOf(rust, emule).onlyRust == map[] <==> rust.Keys <= emule.Keys
    ensures ChannelOf(rust, emule).onlyEmule == map[] <==> emule.Keys <= rust.Keys
  {
    var c := ChannelOf(rust, emule);
    assert forall id :: id in c.onlyRust <==> id in rust && id !in emule;
    assert forall id :: id in c.onlyEmule <==> id in emule && id !in rust;
    if c.onlyRust == map[] {
      assert forall id :: id in rust ==> id in emule;
    }
    if c.onlyEmule == map[] {
      assert forall id :: id in emule ==> id in rust;
    }
  }

  lemma CoverageMeans(byKey: map<Group, Slot>, rust: seq<Packet>, emule: seq<Packet>, groupOf: Packet -> Group)
    requires Counted(byKey, rust, emule, groupOf)
    ensures forall g :: g in byKey ==> byKey[g].rust.Keys == Uses(rust, g, groupOf)
                                       && byKey[g].emule.Keys == Uses(emule, g, groupOf)
    ensures forall g :: g !in byKey ==> Uses(rust, g, groupOf) == {} && Uses(emule, g, groupOf) == {}
  {
    forall g | g in byKey
      ensures byKey[g].rust.Keys == Uses(rust, g, groupOf) && byKey[g].emule.Keys == Uses(emule, g, groupOf)
    {
      CountsKeys(InGroup(rust, g, groupOf));
      CountsKeys(InGroup(emule, g, groupOf));
    }
    forall g | g !in byKey
      ensures Uses(rust, g, groupOf) == {} && Uses(emule, g, groupOf) == {}
    {
      OutsideGroups(rust, g, groupOf);
      OutsideGroups(emule, g, groupOf);
    }
  }

  /** The same packets have the same identities. */
  lemma SameWireSameUses(a: seq<Packet>, b: seq<Packet>)
    requires SamePackets(a, b)
    ensures (set p | p in a :: IdentityOf(p)) == (set p | p in b :: IdentityOf(p))
  {
    forall i | 0 <= i < |a|
      ensures IdentityOf(a[i]) == IdentityOf(b[i])
    {
    }
  }

  datatype TraceReport = TraceReport(packets: Report, coverage: Coverage)

  /** Compares two packet traces; a clean comparison covers all opcodes, and covering all covers the oracle's. */
  method DiffTraces(rust: seq<Packet>, emule: seq<Packet>, normalize: string -> string, script: Group -> seq<Edit>)
    returns (t: TraceReport)
    requires ScriptsTile(script, rust, emule, ByChannel(normalize))
    ensures Reports(t.packets, script, rust, emule, ByChannel(normalize))
    ensures t.packets.matched + t.packets.mismatches + t.packets.onlyRust == |rust|
    ensures t.packets.matched + t.packets.mismatches + t.packets.onlyEmule == |emule|
    ensures t.packets.ok ==> t.coverage.ok
    ensures t.coverage.ok ==> t.coverage.oracleOk
    ensures t.packets.ok ==> forall g :: SameWire(rust, emule, g, ByChannel(normalize))
  {
    hide WireKeys, InGroup, Tiles, DiffGroup, SamePackets;
    var groupOf := ByChannel(normalize);
    var packets := DiffGroups(rust, emule, groupOf, script);
    var coverage := OpcodeCoverage(rust, emule, groupOf);
    if packets.ok {
      forall g
        ensures SameWire(rust, emule, g, groupOf)
        ensures Uses(rust, g, groupOf) == Uses(emule, g, groupOf)
      {
        OkMeansSameWire(packets, script, rust, emule, groupOf, g);
        SameWireSameUses(InGroup(rust, g, groupOf), InGroup(emule, g, groupOf));
      }
    }
    t := TraceReport(packets, coverage);
  }

  // ---------------------------------------------------------------- the packet families of the event stream

  /** One packet event of a family; the direction and the opcode may be missing. */
  datatype PacketEvent = PacketEvent(direction: Option<string>, marker: Option<int>, opcode: Option<int>,
                                     payloadHex: Option<string>, decodedHex: Option<string>)

  predicate IsWirePacket(e: PacketEvent) {
    (e.direction == Some("send") || e.direction == Some("recv")) && e.opcode.Some?
  }

  /** The packet an event stands for; Kad packets are compared by their decoded payload. */
  function PacketOf(e: PacketEvent, family: string): Packet {
    Packet(None, e.direction.GetOr(""), e.marker, e.opcode.GetOr(0),
           if family == "kad_udp" then e.decodedHex else e.payloadHex)
  }

  function WirePackets(events: seq<PacketEvent>, family: string): seq<Packet> {
    if events == [] then []
    else
      var init, e := WirePackets(events[..|events| - 1], family), events[|events| - 1];
      if IsWirePacket(e) then init + [PacketOf(e, family)] else init
  }

  method FilterWirePackets(events: seq<PacketEvent>, family: string) returns (packets: seq<Packet>)
    ensures packets == WirePackets(events, family)
  {
    packets := [];
    for i := 0 to |events|
      invariant packets == WirePackets(events[..i], family)
    {
      assert events[..i + 1][..i] == events[..i];
      if !IsWirePacket(events[i]) {
        continue;
      }
      packets := packets + [PacketOf(events[i], family)];
    }
    assert events[..|events|] == events;
  }

  /** Compares one packet family of two event streams, direction by direction. */
  method DiffPacketFamily(family: string, rust: seq<PacketEvent>, mfc: seq<PacketEvent>, script: Group -> seq<Edit>)
    returns (r: Report)
    requires ScriptsTile(script, WirePackets(rust, family), WirePackets(mfc, family), ByDirection(family))
    ensures Reports(r, script, WirePackets(rust, family), WirePackets(mfc, family), ByDirection(family))
    ensures r.matched + r.mismatches + r.onlyRust == |WirePackets(rust, family)|
    ensures r.matched + r.mismatches + r.onlyEmule == |WirePackets(mfc, family)|
    ensures r.ok <==> forall g :: g in r.order ==> IsClean(r.flows[g])
    ensures r.ok ==>
              forall g :: SameWire(WirePackets(rust, family), WirePackets(mfc, family), g, ByDirection(family))
  {
    hide WireKeys, InGroup, Tiles, DiffGroup, SamePackets, WirePackets, SameWire;
    var rustPackets := FilterWirePackets(rust, family);
    var mfcPackets := FilterWirePackets(mfc, family);
    r := DiffGroups(rustPackets, mfcPackets, ByDirection(family), script);
    if r.ok {
      forall g
        ensures SameWire(rustPackets, mfcPackets, g, ByDirection(family))
      {
        OkMeansSameWire(r, script, rustPackets, mfcPackets, ByDirection(family), g);
      }
    }
  }
}
