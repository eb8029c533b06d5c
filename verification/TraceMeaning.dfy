/** What groups, identities and wire packets are, told of the records of a trace. */
module TraceMeaning {
  import opened Basics
  import opened Outcomes
  import opened PacketDiff
  import opened TraceDiff

  predicate Ascending(at: seq<nat>, bound: nat) {
    && (forall r :: 0 <= r < |at| ==> at[r] < bound)
    && (forall q, r :: 0 <= q < r < |at| ==> at[q] < at[r])
  }

  // ---------------------------------------------------------------- groups

  /** The members of a group are the packets of the trace at some ascending places, and no other packet is in it. */
  ghost predicate MembersAt(trace: seq<Packet>, g: Group, groupOf: Packet -> Group, members: seq<Packet>,
                            at: seq<nat>)
  {
    && |at| == |members| && Ascending(at, |trace|)
    && (forall r :: 0 <= r < |at| ==> members[r] == trace[at[r]])
    && (forall i :: 0 <= i < |trace| ==> (i in at <==> groupOf(trace[i]) == g))
  }

  lemma MembersSnoc(trace: seq<Packet>, p: Packet, g: Group, groupOf: Packet -> Group, members: seq<Packet>,
                    at: seq<nat>)
    requires MembersAt(trace, g, groupOf, members, at)
    ensures groupOf(p) == g ==> MembersAt(trace + [p], g, groupOf, members + [p], at + [|trace|])
    ensures groupOf(p) != g ==> MembersAt(trace + [p], g, groupOf, members, at)
  {
    var more := at + [|trace|];
    assert forall i :: 0 <= i < |trace| ==> (i in more <==> i in at);
    assert more[|at|] == |trace|;
  }

  lemma {:induction false} InGroupIs(trace: seq<Packet>, g: Group, groupOf: Packet -> Group) returns (at: seq<nat>)
    ensures MembersAt(trace, g, groupOf, InGroup(trace, g, groupOf), at)
  {
    if trace == [] {
      at := [];
    } else {
      hide MembersAt;
      var n := |trace| - 1;
      at := InGroupIs(trace[..n], g, groupOf);
      MembersSnoc(trace[..n], trace[n], g, groupOf, InGroup(trace[..n], g, groupOf), at);
      assert trace == trace[..n] + [trace[n]];
      if groupOf(trace[n]) == g {
        at := at + [n];
      }
    }
  }

  /** A missing label and an empty one read "unknown". */
  function Label(p: Packet): string {
    if p.flow == None || p.flow == Some("") then "unknown" else p.flow.value
  }

  predicate OnServer(p: Packet, normalize: string -> string) {
    normalize(Label(p)) == "server"
  }

  predicate OnKad(p: Packet, normalize: string -> string) {
    normalize(Label(p)) in {"kad", "kad_udp", "kademlia"}
  }

  /** Two packets are compared in one group when they go one way, and both or neither are server's, and Kad's. */
  lemma SameGroupIff(a: Packet, b: Packet, normalize: string -> string)
    ensures ByChannel(normalize)(a) == ByChannel(normalize)(b) <==>
            && a.direction == b.direction
            && (OnServer(a, normalize) <==> OnServer(b, normalize))
            && (OnKad(a, normalize) <==> OnKad(b, normalize))
    ensures ByChannel(normalize)(a).channel ==
            if OnServer(a, normalize) then "server" else if OnKad(a, normalize) then "kad" else "client"
  {
  }

  /** The packets of a family are grouped by their direction only. */
  lemma SameDirectionIff(a: Packet, b: Packet, family: string)
    ensures ByDirection(family)(a) == ByDirection(family)(b) <==> a.direction == b.direction
  {
  }

  // ---------------------------------------------------------------- identities

  /** What a packet is counted as: its marker, nought when it has none, and its opcode. */
  function Identities(ps: seq<Packet>): (ids: seq<Identity>)
    ensures |ids| == |ps| && forall i :: 0 <= i < |ps| ==> ids[i] == Identity(ps[i].marker.GetOr(0), ps[i].opcode)
  {
    seq(|ps|, i requires 0 <= i < |ps| => Identity(ps[i].marker.GetOr(0), ps[i].opcode))
  }

  /** The count kept for an identity is how many packets have it. */
  lemma {:induction false} CountsAre(ps: seq<Packet>, id: Identity)
    ensures id in CountsOf(ps) <==> id in Identities(ps)
    ensures id in CountsOf(ps) ==> CountsOf(ps)[id] == multiset(Identities(ps))[id]
  {
    if ps != [] {
      var n := |ps| - 1;
      CountsAre(ps[..n], id);
      assert Identities(ps) == Identities(ps[..n]) + [Identity(ps[n].marker.GetOr(0), ps[n].opcode)];
    }
  }

  /** Some packet of the trace in the group has this marker, nought standing for none, and this opcode. */
  ghost predicate IsUsed(trace: seq<Packet>, g: Group, groupOf: Packet -> Group, marker: int, opcode: int) {
    exists i :: 0 <= i < |trace| && groupOf(trace[i]) == g
                && trace[i].marker.GetOr(0) == marker && trace[i].opcode == opcode
  }

  lemma UsesAre(trace: seq<Packet>, g: Group, groupOf: Packet -> Group, marker: int, opcode: int)
    ensures Identity(marker, opcode) in Uses(trace, g, groupOf) <==> IsUsed(trace, g, groupOf, marker, opcode)
  {
    hide InGroup;
    var members := InGroup(trace, g, groupOf);
    var at := InGroupIs(trace, g, groupOf);
    if Identity(marker, opcode) in Uses(trace, g, groupOf) {
      var p :| p in members && IdentityOf(p) == Identity(marker, opcode);
      var r :| 0 <= r < |members| && members[r] == p;
      assert groupOf(trace[at[r]]) == g;
    }
    if IsUsed(trace, g, groupOf, marker, opcode) {
      var i :| 0 <= i < |trace| && groupOf(trace[i]) == g
               && trace[i].marker.GetOr(0) == marker && trace[i].opcode == opcode;
      assert i in at;
      var r :| 0 <= r < |at| && at[r] == i;
      assert members[r] in members;
      assert IdentityOf(members[r]) == Identity(marker, opcode);
    }
  }

  /** One side uses in a group whatever the other does, told of packets. */
  lemma UsesAllOf(a: seq<Packet>, b: seq<Packet>, g: Group, groupOf: Packet -> Group)
    ensures Uses(a, g, groupOf) <= Uses(b, g, groupOf) <==>
            forall marker, opcode :: IsUsed(a, g, groupOf, marker, opcode) ==> IsUsed(b, g, groupOf, marker, opcode)
  {
    hide Uses, IsUsed;
    if Uses(a, g, groupOf) <= Uses(b, g, groupOf) {
      forall marker, opcode | IsUsed(a, g, groupOf, marker, opcode)
        ensures IsUsed(b, g, groupOf, marker, opcode)
      {
        UsesAre(a, g, groupOf, marker, opcode);
        UsesAre(b, g, groupOf, marker, opcode);
      }
    }
    if forall marker, opcode :: IsUsed(a, g, groupOf, marker, opcode) ==> IsUsed(b, g, groupOf, marker, opcode) {
      forall id | id in Uses(a, g, groupOf)
        ensures id in Uses(b, g, groupOf)
      {
        UsesAre(a, g, groupOf, id.marker, id.opcode);
        UsesAre(b, g, groupOf, id.marker, id.opcode);
      }
    }
  }

  /** What a channel reports: both counts of what both use, the rust first, and one count of what one side uses. */
  lemma ChannelIs(rust: Counts, emule: Counts)
    ensures var c := ChannelOf(rust, emule);
            && c.shared.Keys == rust.Keys * emule.Keys
            && c.onlyRust.Keys == rust.Keys - emule.Keys && c.onlyEmule.Keys == emule.Keys - rust.Keys
            && (forall id :: id in c.shared ==> c.shared[id].0 == rust[id] && c.shared[id].1 == emule[id])
            && (forall id :: id in c.onlyRust ==> c.onlyRust[id] == rust[id])
            && (forall id :: id in c.onlyEmule ==> c.onlyEmule[id] == emule[id])
  {
  }

  // ---------------------------------------------------------------- the packet families of the event stream

  /** The events that count as wire packets: sent or received, with an opcode. */
  predicate Counts(e: PacketEvent) {
    e.direction.Some? && e.direction.value in {"send", "recv"} && e.opcode != None
  }

  ghost predicate PacketsAt(events: seq<PacketEvent>, family: string, packets: seq<Packet>, at: seq<nat>) {
    && |at| == |packets| && Ascending(at, |events|)
    && (forall i :: 0 <= i < |events| ==> (i in at <==> Counts(events[i])))
    && (forall r :: 0 <= r < |at| && Counts(events[at[r]]) ==>
          var e := events[at[r]];
          && packets[r].direction == e.direction.value && packets[r].marker == e.marker
          && packets[r].opcode == e.opcode.value
          && packets[r].payload == if family == "kad_udp" then e.decodedHex else e.payloadHex)
  }

  lemma PacketsSnoc(events: seq<PacketEvent>, e: PacketEvent, family: string, packets: seq<Packet>, at: seq<nat>)
    requires PacketsAt(events, family, packets, at)
    ensures IsWirePacket(e) ==> PacketsAt(events + [e], family, packets + [PacketOf(e, family)], at + [|events|])
    ensures !IsWirePacket(e) ==> PacketsAt(events + [e], family, packets, at)
  {
    var more := at + [|events|];
    assert forall i :: 0 <= i < |events| ==> (i in more <==> i in at);
    assert more[|at|] == |events|;
  }

  /** The packets of a family are its wire packets in order, with the payload that the family is compared by. */
  lemma {:induction false} WirePacketsAre(events: seq<PacketEvent>, family: string) returns (at: seq<nat>)
    ensures PacketsAt(events, family, WirePackets(events, family), at)
  {
    if events == [] {
      at := [];
    } else {
      hide PacketsAt, IsWirePacket, PacketOf;
      var n := |events| - 1;
      at := WirePacketsAre(events[..n], family);
      PacketsSnoc(events[..n], events[n], family, WirePackets(events[..n], family), at);
      assert events == events[..n] + [events[n]];
      if IsWirePacket(events[n]) {
        at := at + [n];
      }
    }
  }
}
