/** The conformance verdict told of record fields: which records count as an event, and which keys Rust may lack. */
module ConformanceMeaning {
  import opened Outcomes
  import opened Conformance

  /** The record is one of the event; a packet record must be sent or received and carry an opcode. */
  predicate IsOf(r: Record, family: string, event: string) {
    && r.family == Some(family) && r.event == Some(event)
    && (family == "ed2k_tcp" || family == "kad_udp" ==>
          && "direction" in r.body && (r.body["direction"] == Text("send") || r.body["direction"] == Text("recv"))
          && "opcode" in r.body && r.body["opcode"] != Null)
  }

  lemma KeyIs(r: Record, family: string, event: string)
    ensures KeyOf(r) == Some(EventKey(family, event)) <==> IsOf(r, family, event)
  {
  }

  ghost predicate Happens(trace: seq<Record>, family: string, event: string) {
    exists i :: 0 <= i < |trace| && IsOf(trace[i], family, event)
  }

  ghost predicate HappensWith(trace: seq<Record>, family: string, event: string, name: string) {
    exists i :: 0 <= i < |trace| && IsOf(trace[i], family, event) && name in trace[i].body
  }

  lemma HappensIs(trace: seq<Record>, family: string, event: string)
    ensures Emits(trace, EventKey(family, event)) <==> Happens(trace, family, event)
  {
    hide IsOf, KeyOf;
    forall r: Record
      ensures KeyOf(r) == Some(EventKey(family, event)) <==> IsOf(r, family, event)
    {
      KeyIs(r, family, event);
    }
    if Emits(trace, EventKey(family, event)) {
      var r :| r in trace && KeyOf(r) == Some(EventKey(family, event));
      var i :| 0 <= i < |trace| && trace[i] == r;
    }
  }

  lemma HappensWithIs(trace: seq<Record>, family: string, event: string, name: string)
    ensures Carries(trace, EventKey(family, event), name) <==> HappensWith(trace, family, event, name)
  {
    hide IsOf, KeyOf;
    forall r: Record
      ensures KeyOf(r) == Some(EventKey(family, event)) <==> IsOf(r, family, event)
    {
      KeyIs(r, family, event);
    }
    if Carries(trace, EventKey(family, event), name) {
      var r :| r in trace && KeyOf(r) == Some(EventKey(family, event)) && name in r.body;
      var i :| 0 <= i < |trace| && trace[i] == r;
    }
  }

  /** The body keys that a Rust event may lack, by family. */
  predicate MayLack(family: string, name: string) {
    (family, name) in {
      ("bad_peer", "fileName"), ("bad_peer", "fileSize"), ("bad_peer", "userName"), ("bad_peer", "clientSoftware"),
      ("bad_peer", "clientMod"), ("bad_peer", "name"), ("sched", "firstSkipReason"), ("kad_event", "reason")}
  }

  lemma MayLackIs(family: string, name: string)
    ensures Exempt(family, name) <==> MayLack(family, name)
  {
  }

  /** A body key of the oracle, on an event that both sides have, is on some Rust record of it or may be lacking. */
  ghost predicate KeyIsCovered(rust: seq<Record>, mfc: seq<Record>, family: string, event: string, name: string) {
    Happens(rust, family, event) && HappensWith(mfc, family, event, name) ==>
      HappensWith(rust, family, event, name) || MayLack(family, name)
  }

  lemma CoveredIs(rust: seq<Record>, mfc: seq<Record>, k: EventKey, name: string)
    ensures KeyIsCovered(rust, mfc, k.family, k.event, name) <==>
            (Emits(rust, k) && Carries(mfc, k, name) ==> Carries(rust, k, name) || Exempt(k.family, name))
  {
    hide Emits, Carries, Happens, HappensWith, MayLack, Exempt;
    HappensIs(rust, k.family, k.event);
    HappensWithIs(mfc, k.family, k.event, name);
    HappensWithIs(rust, k.family, k.event, name);
    MayLackIs(k.family, name);
    assert k == EventKey(k.family, k.event);
  }

  lemma ConformantIs(rust: seq<Record>, mfc: seq<Record>)
    ensures Conformant(rust, mfc) <==> forall family, event, name :: KeyIsCovered(rust, mfc, family, event, name)
  {
    hide Emits, Carries, KeyIsCovered, Exempt;
    if Conformant(rust, mfc) {
      forall family, event, name
        ensures KeyIsCovered(rust, mfc, family, event, name)
      {
        CoveredIs(rust, mfc, EventKey(family, event), name);
      }
    }
    if forall family, event, name :: KeyIsCovered(rust, mfc, family, event, name) {
      forall k: EventKey, name | Emits(rust, k) && Carries(mfc, k, name)
        ensures Carries(rust, k, name) || Exempt(k.family, name)
      {
        assert KeyIsCovered(rust, mfc, k.family, k.event, name);
        CoveredIs(rust, mfc, k, name);
      }
    }
  }

  lemma ConformantInIs(family: string, rust: seq<Record>, mfc: seq<Record>)
    ensures ConformantIn(family, rust, mfc) <==> forall event, name :: KeyIsCovered(rust, mfc, family, event, name)
  {
    hide Emits, Carries, KeyIsCovered, Exempt;
    if ConformantIn(family, rust, mfc) {
      forall event, name
        ensures KeyIsCovered(rust, mfc, family, event, name)
      {
        CoveredIs(rust, mfc, EventKey(family, event), name);
      }
    }
    if forall event, name :: KeyIsCovered(rust, mfc, family, event, name) {
      forall k: EventKey, name | k.family == family && Emits(rust, k) && Carries(mfc, k, name)
        ensures Carries(rust, k, name) || Exempt(k.family, name)
      {
        assert KeyIsCovered(rust, mfc, family, k.event, name);
        CoveredIs(rust, mfc, k, name);
      }
    }
  }

  /** The places of a trace that hold records of an event. */
  function PlacesOf(trace: seq<Record>, family: string, event: string): set<nat> {
    set i: nat | i < |trace| && IsOf(trace[i], family, event)
  }

  /** The count of an event is the number of its records. */
  lemma {:induction false} CountIsPlaces(trace: seq<Record>, family: string, event: string)
    ensures CountOf(trace, EventKey(family, event)) == |PlacesOf(trace, family, event)|
  {
    if trace != [] {
      hide IsOf, KeyOf;
      var n := |trace| - 1;
      CountIsPlaces(trace[..n], family, event);
      KeyIs(trace[n], family, event);
      var before := PlacesOf(trace[..n], family, event);
      assert n !in before;
      assert PlacesOf(trace, family, event) == before + if IsOf(trace[n], family, event) then {n} else {};
    }
  }
}
