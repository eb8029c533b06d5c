/** Matching the events of two traces greedily by identity, each oracle event at most once. */
module EventDiff {

  datatype EventReport<Record> = EventReport(matched: nat, onlyRust: seq<Record>, onlyMfc: seq<Record>, ok: bool)

  function Identities<Record, Id>(records: seq<Record>, identity: Record -> Id): (ids: seq<Id>)
    ensures |ids| == |records| && forall i :: 0 <= i < |records| ==> ids[i] == identity(records[i])
  {
    seq(|records|, i requires 0 <= i < |records| => identity(records[i]))
  }

  /** The identities whose flag is `used`. */
  function Flagged<Id(==)>(ids: seq<Id>, flags: seq<bool>, used: bool): multiset<Id>
    requires |flags| == |ids|
  {
    if ids == [] then multiset{}
    else
      var n := |ids| - 1;
      Flagged(ids[..n], flags[..n], used) + if flags[n] == used then multiset{ids[n]} else multiset{}
  }

  /** The records whose flag is down, in order. */
  function Unused<Record>(records: seq<Record>, flags: seq<bool>): seq<Record>
    requires |flags| == |records|
  {
    if records == [] then []
    else
      var n := |records| - 1;
      if flags[n] then Unused(records[..n], flags[..n]) else Unused(records[..n], flags[..n]) + [records[n]]
  }

  lemma {:induction false} FlaggedSplit<Id>(ids: seq<Id>, flags: seq<bool>)
    requires |flags| == |ids|
    ensures Flagged(ids, flags, true) + Flagged(ids, flags, false) == multiset(ids)
  {
    if ids != [] {
      var n := |ids| - 1;
      FlaggedSplit(ids[..n], flags[..n]);
      assert ids == ids[..n] + [ids[n]];
    }
  }

  lemma {:induction false} UnusedIdentities<Record, Id>(records: seq<Record>, identity: Record -> Id, flags: seq<bool>)
    requires |flags| == |records|
    ensures multiset(Identities(Unused(records, flags), identity))
         == Flagged(Identities(records, identity), flags, false)
  {
    if records != [] {
      var n := |records| - 1;
      var rest := Unused(records[..n], flags[..n]);
      UnusedIdentities(records[..n], identity, flags[..n]);
      assert Identities(records, identity)[..n] == Identities(records[..n], identity);
      assert Identities(rest + [records[n]], identity) == Identities(rest, identity) + [identity(records[n])];
    }
  }

  /** Raising one flag moves one identity from the unused to the used. */
  lemma {:induction false} RaiseFlag<Id>(ids: seq<Id>, flags: seq<bool>, k: nat)
    requires |flags| == |ids| && k < |ids| && !flags[k]
    ensures Flagged(ids, flags[k := true], true) == Flagged(ids, flags, true) + multiset{ids[k]}
  {
    var n := |ids| - 1;
    if k == n {
      assert flags[k := true][..n] == flags[..n];
    } else {
      RaiseFlag(ids[..n], flags[..n], k);
      assert flags[k := true][..n] == flags[..n][k := true];
    }
  }

  /** An identity without a lowered flag is used as often as it occurs. */
  lemma {:induction false} AllUsed<Id>(ids: seq<Id>, flags: seq<bool>, id: Id)
    requires |flags| == |ids| && forall i :: 0 <= i < |ids| && ids[i] == id ==> flags[i]
    ensures Flagged(ids, flags, true)[id] == multiset(ids)[id]
  {
    if ids != [] {
      var n := |ids| - 1;
      AllUsed(ids[..n], flags[..n], id);
      assert ids == ids[..n] + [ids[n]];
    }
  }

  /** A lowered flag means that its identity is used less often than it occurs. */
  lemma NotAllUsed<Id>(ids: seq<Id>, flags: seq<bool>, k: nat)
    requires |flags| == |ids| && k < |ids| && !flags[k]
    ensures Flagged(ids, flags, true)[ids[k]] < multiset(ids)[ids[k]]
  {
    RaiseFlag(ids, flags, k);
    FlaggedSplit(ids, flags[k := true]);
  }

  /** Greedy matching used the oracle's identities as often as both traces have them. */
  ghost predicate UsesCommon<Id>(seen: seq<Id>, ids: seq<Id>, flags: seq<bool>)
    requires |flags| == |ids|
  {
    Flagged(ids, flags, true) == multiset(seen) * multiset(ids)
  }

  lemma MatchStep<Id>(seen: seq<Id>, id: Id, ids: seq<Id>, flags: seq<bool>, k: nat)
    requires |flags| == |ids| && UsesCommon(seen, ids, flags) && k < |ids| && !flags[k] && ids[k] == id
    ensures UsesCommon(seen + [id], ids, flags[k := true])
    ensures id in multiset(ids) - multiset(seen)
  {
    RaiseFlag(ids, flags, k);
    NotAllUsed(ids, flags, k);
    var used, common := Flagged(ids, flags[k := true], true), multiset(seen + [id]) * multiset(ids);
    assert forall x :: used[x] == common[x];
  }

  lemma MissStep<Id>(seen: seq<Id>, id: Id, ids: seq<Id>, flags: seq<bool>)
    requires |flags| == |ids| && UsesCommon(seen, ids, flags)
    requires forall i :: 0 <= i < |ids| && ids[i] == id ==> flags[i]
    ensures UsesCommon(seen + [id], ids, flags)
    ensures multiset(ids)[id] <= multiset(seen)[id]
  {
    AllUsed(ids, flags, id);
    var used, common := Flagged(ids, flags, true), multiset(seen + [id]) * multiset(ids);
    assert forall x :: used[x] == common[x];
  }

  /** The first unused oracle event with an identity. */
  method FindUnused<Id(==)>(ids: seq<Id>, used: array<bool>, id: Id) returns (found: bool, k: nat)
    requires used.Length == |ids|
    ensures found ==> k < |ids| && !used[k] && ids[k] == id
    ensures !found ==> forall i :: 0 <= i < |ids| && ids[i] == id ==> used[i]
  {
    for index := 0 to |ids|
      invariant forall i :: 0 <= i < index && ids[i] == id ==> used[i]
    {
      if !used[index] && ids[index] == id {
        return true, index;
      }
    }
    return false, 0;
  }

  /**
   Matches two traces of one event family: what is matched is the multiset intersection of their identities,
   what is left over on each side is the difference, and only an oracle event left over is a failure.
   */
  method DiffEventFamily<Record, Id(==)>(rust: seq<Record>, mfc: seq<Record>, identity: Record -> Id)
    returns (r: EventReport<Record>)
    ensures var a, b := multiset(Identities(rust, identity)), multiset(Identities(mfc, identity));
            && r.matched == |a * b|
            && multiset(Identities(r.onlyRust, identity)) == a - b
            && multiset(Identities(r.onlyMfc, identity)) == b - a
            && r.matched + |r.onlyRust| == |rust| && r.matched + |r.onlyMfc| == |mfc|
            && (r.ok <==> b <= a)
  {
    hide Identities, Flagged, Unused, Progress;
    var ids := Identities(mfc, identity);
    var used := new bool[|mfc|](_ => false);
    var matched := 0;
    var onlyRust: seq<Record> := [];
    NothingUsed(ids, used[..], identity);
    for i := 0 to |rust|
      invariant used.Length == |ids| && Progress(rust[..i], ids, used[..], matched, onlyRust, identity)
    {
      var record := rust[i];
      var found, k := FindUnused(ids, used, identity(record));
      assert rust[..i + 1] == rust[..i] + [record];
      ghost var flags := used[..];
      if found {
        Matched(rust[..i], record, ids, flags, k, matched, onlyRust, identity);
        used[k] := true;
        assert used[..] == flags[k := true];
        matched := matched + 1;
      } else {
        Missed(rust[..i], record, ids, flags, matched, onlyRust, identity);
        onlyRust := onlyRust + [record];
      }
    }
    assert rust[..|rust|] == rust;
    var onlyMfc := Unused(mfc, used[..]);
    Finished(rust, mfc, identity, used[..], matched, onlyRust);
    r := EventReport(matched, onlyRust, onlyMfc, onlyMfc == []);
  }

  /** What the matching has done once the records `seen` have been tried. */
  ghost predicate Progress<Record, Id>(seen: seq<Record>, ids: seq<Id>, flags: seq<bool>, matched: nat,
                                       onlyRust: seq<Record>, identity: Record -> Id)
    requires |flags| == |ids|
  {
    var a, b := multiset(Identities(seen, identity)), multiset(ids);
    && UsesCommon(Identities(seen, identity), ids, flags)
    && matched == |a * b| && multiset(Identities(onlyRust, identity)) == a - b
  }

  lemma Matched<Record, Id>(seen: seq<Record>, record: Record, ids: seq<Id>, flags: seq<bool>, k: nat, matched: nat,
                            onlyRust: seq<Record>, identity: Record -> Id)
    requires |flags| == |ids| && Progress(seen, ids, flags, matched, onlyRust, identity)
    requires k < |ids| && !flags[k] && ids[k] == identity(record)
    ensures Progress(seen + [record], ids, flags[k := true], matched + 1, onlyRust, identity)
  {
    hide Identities, UsesCommon;
    IdentitiesSnoc(seen, record, identity);
    MatchStep(Identities(seen, identity), identity(record), ids, flags, k);
    FlaggedSize(Identities(seen, identity), identity(record), ids);
  }

  lemma Missed<Record, Id>(seen: seq<Record>, record: Record, ids: seq<Id>, flags: seq<bool>, matched: nat,
                           onlyRust: seq<Record>, identity: Record -> Id)
    requires |flags| == |ids| && Progress(seen, ids, flags, matched, onlyRust, identity)
    requires forall i :: 0 <= i < |ids| && ids[i] == identity(record) ==> flags[i]
    ensures Progress(seen + [record], ids, flags, matched, onlyRust + [record], identity)
  {
    hide Identities, UsesCommon;
    IdentitiesSnoc(seen, record, identity);
    MissStep(Identities(seen, identity), identity(record), ids, flags);
    LeftOver(Identities(seen, identity), identity(record), ids, onlyRust, record, identity);
  }

  lemma IdentitiesSnoc<Record, Id>(records: seq<Record>, record: Record, identity: Record -> Id)
    ensures Identities(records + [record], identity) == Identities(records, identity) + [identity(record)]
  {
  }

  lemma Finished<Record, Id>(rust: seq<Record>, mfc: seq<Record>, identity: Record -> Id, flags: seq<bool>,
                             matched: nat, onlyRust: seq<Record>)
    requires |flags| == |mfc|
    requires Progress(rust, Identities(mfc, identity), flags, matched, onlyRust, identity)
    ensures var a, b := multiset(Identities(rust, identity)), multiset(Identities(mfc, identity));
            var onlyMfc := Unused(mfc, flags);
            && matched == |a * b|
            && multiset(Identities(onlyRust, identity)) == a - b
            && multiset(Identities(onlyMfc, identity)) == b - a
            && matched + |onlyRust| == |rust| && matched + |onlyMfc| == |mfc|
            && (onlyMfc == [] <==> b <= a)
  {
    var ids := Identities(mfc, identity);
    UnusedIdentities(mfc, identity, flags);
    FlaggedSplit(ids, flags);
    Sizes(Identities(rust, identity), ids, Identities(onlyRust, identity), Identities(Unused(mfc, flags), identity));
  }

  lemma {:induction false} NothingFlagged<Id>(ids: seq<Id>, flags: seq<bool>)
    requires |flags| == |ids| && forall i :: 0 <= i < |flags| ==> !flags[i]
    ensures Flagged(ids, flags, true) == multiset{}
  {
    if ids != [] {
      NothingFlagged(ids[..|ids| - 1], flags[..|ids| - 1]);
    }
  }

  lemma NothingUsed<Record, Id>(ids: seq<Id>, flags: seq<bool>, identity: Record -> Id)
    requires |flags| == |ids| && forall i :: 0 <= i < |flags| ==> !flags[i]
    ensures Progress([], ids, flags, 0, [], identity)
  {
    NothingFlagged(ids, flags);
    assert multiset(Identities<Record, Id>([], identity)) == multiset{};
    assert multiset{} * multiset(ids) == multiset{};
  }

  lemma FlaggedSize<Id>(seen: seq<Id>, id: Id, ids: seq<Id>)
    requires multiset(seen)[id] < multiset(ids)[id]
    ensures |multiset(seen + [id]) * multiset(ids)| == |multiset(seen) * multiset(ids)| + 1
    ensures multiset(seen + [id]) - multiset(ids) == multiset(seen) - multiset(ids)
  {
    var before, after := multiset(seen) * multiset(ids), multiset(seen + [id]) * multiset(ids);
    assert after == before + multiset{id};
  }

  lemma LeftOver<Record, Id>(seen: seq<Id>, id: Id, ids: seq<Id>, onlyRust: seq<Record>, record: Record,
                             identity: Record -> Id)
    requires multiset(ids)[id] <= multiset(seen)[id] && identity(record) == id
    requires multiset(Identities(onlyRust, identity)) == multiset(seen) - multiset(ids)
    ensures multiset(seen + [id]) * multiset(ids) == multiset(seen) * multiset(ids)
    ensures multiset(Identities(onlyRust + [record], identity)) == multiset(seen + [id]) - multiset(ids)
  {
    assert Identities(onlyRust + [record], identity) == Identities(onlyRust, identity) + [id];
  }

  lemma Sizes<Id>(a: seq<Id>, b: seq<Id>, onlyA: seq<Id>, onlyB: seq<Id>)
    requires multiset(onlyA) == multiset(a) - multiset(b)
    requires multiset(onlyB) + multiset(a) * multiset(b) == multiset(b)
    ensures multiset(onlyB) == multiset(b) - multiset(a)
    ensures |multiset(a) * multiset(b)| + |onlyA| == |a| && |multiset(a) * multiset(b)| + |onlyB| == |b|
    ensures onlyB == [] <==> multiset(b) <= multiset(a)
  {
    var common := multiset(a) * multiset(b);
    assert multiset(onlyA) + common == multiset(a);
    assert |multiset(onlyA)| == |onlyA| && |multiset(onlyB)| == |onlyB| && |multiset(a)| == |a| && |multiset(b)| == |b|;
    assert multiset(onlyB) == multiset(b) - multiset(a);
    assert onlyB == [] <==> |multiset(onlyB)| == 0;
  }

  // ---------------------------------------------------------------- what the totals do not depend on

  /** The sum, over some identities, of the smaller of their two counts. */
  function SumOfMinima<Id(==)>(ids: seq<Id>, a: multiset<Id>, b: multiset<Id>): nat {
    if ids == [] then 0
    else
      var id := ids[|ids| - 1];
      SumOfMinima(ids[..|ids| - 1], a, b) + if a[id] < b[id] then a[id] else b[id]
  }

  /** The matched total is the sum over all identities of the smaller count. */
  lemma {:induction false} IntersectionCounts<Id>(ids: seq<Id>, a: multiset<Id>, b: multiset<Id>)
    requires forall i, j :: 0 <= i < j < |ids| ==> ids[i] != ids[j]
    requires forall x :: x in a * b ==> x in ids
    ensures |a * b| == SumOfMinima(ids, a, b)
  {
    if ids == [] {
      assert a * b == multiset{};
    } else {
      var n := |ids| - 1;
      var id := ids[n];
      var without := a[id := 0];
      forall x | x in without * b
        ensures x in ids[..n]
      {
        assert x in a * b && x != id;
        var j :| 0 <= j < |ids| && ids[j] == x;
        assert ids[..n][j] == x;
      }
      IntersectionCounts(ids[..n], without, b);
      SumIgnores(ids[..n], a, b, id);
      var least := if a[id] < b[id] then a[id] else b[id];
      assert a * b == (without * b)[id := least];
    }
  }

  lemma {:induction false} SumIgnores<Id>(ids: seq<Id>, a: multiset<Id>, b: multiset<Id>, id: Id)
    requires id !in ids
    ensures SumOfMinima(ids, a[id := 0], b) == SumOfMinima(ids, a, b)
  {
    if ids != [] {
      SumIgnores(ids[..|ids| - 1], a, b, id);
    }
  }

  function Without<T>(b: seq<T>, k: nat): (rest: seq<T>)
    requires k < |b|
    ensures |rest| == |b| - 1
  {
    b[..k] + b[k + 1..]
  }

  lemma SameWithoutOne<T>(a: seq<T>, b: seq<T>, k: nat)
    requires a != [] && k < |b| && b[k] == a[0] && multiset(a) == multiset(b)
    ensures multiset(Without(a, 0)) == multiset(Without(b, k))
  {
    TakeOut(a, 0);
    TakeOut(b, k);
    Cancel(multiset(Without(a, 0)), multiset(Without(b, k)), a[0]);
  }

  lemma TakeOut<T>(b: seq<T>, k: nat)
    requires k < |b|
    ensures multiset(b) == multiset(Without(b, k)) + multiset{b[k]}
  {
    assert b == b[..k] + [b[k]] + b[k + 1..];
  }

  lemma Cancel<T>(a: multiset<T>, b: multiset<T>, x: T)
    requires a + multiset{x} == b + multiset{x}
    ensures a == b
  {
    assert a == (a + multiset{x}) - multiset{x};
    assert b == (b + multiset{x}) - multiset{x};
  }

  lemma SwapOut<Record, Id>(b: seq<Record>, k: nat, identity: Record -> Id)
    requires k < |b|
    ensures multiset(Identities(b, identity))
         == multiset(Identities(Without(b, k), identity)) + multiset{identity(b[k])}
  {
    var ids := Identities(b, identity);
    TakeOut(ids, k);
    assert Identities(Without(b, k), identity) == Without(ids, k);
  }

  /** Reordering a trace does not change the multiset of its identities, so neither total nor verdict. */
  lemma {:induction false} OrderDoesNotMatter<Record, Id>(a: seq<Record>, b: seq<Record>, identity: Record -> Id)
    requires multiset(a) == multiset(b)
    ensures multiset(Identities(a, identity)) == multiset(Identities(b, identity))
    decreases |a|
  {
    hide Identities, Without;
    assert |multiset(a)| == |a| && |multiset(b)| == |b|;
    if a == [] {
      assert b == [];
    } else {
      assert a[0] in multiset(b);
      var k :| 0 <= k < |b| && b[k] == a[0];
      SameWithoutOne(a, b, k);
      SwapOut(a, 0, identity);
      SwapOut(b, k, identity);
      OrderDoesNotMatter(Without(a, 0), Without(b, k), identity);
    }
  }
}
