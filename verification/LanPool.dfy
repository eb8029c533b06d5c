/** A pool of secondary addresses on one LAN interface, whatever the commands that change the interface do. */
module LanPool {
  import opened Basics
  import opened Outcomes
  import opened Hex

  datatype Ip = Ip(a: byte, b: byte, c: byte, d: byte)

  datatype Probe = Probe(ip: Ip, free: bool)

  function Members<T>(s: seq<T>): set<T> {
    set x | x in s
  }

  // ---------------------------------------------------------------- candidate addresses

  function PowerOfTwo(n: nat): (p: nat)
    ensures p > 0
  {
    if n == 0 then 1 else 2 * PowerOfTwo(n - 1)
  }

  function Number(ip: Ip): nat {
    ((ip.a * 256 + ip.b) * 256 + ip.c) * 256 + ip.d
  }

  /** Whether two addresses agree in their first `prefix` bits. */
  predicate SameNetwork(x: Ip, y: Ip, prefix: nat)
    requires prefix <= 32
  {
    Number(x) / PowerOfTwo(32 - prefix) == Number(y) / PowerOfTwo(32 - prefix)
  }

  /** The first `n` addresses from an octet on that are in the network, in order. */
  function CandidatesUpto(lan: Ip, prefix: nat, first: int, n: nat): seq<Ip>
    requires prefix <= 32 && (n > 0 ==> 0 <= first && first + n <= 256)
  {
    if n == 0 then []
    else
      var ip := lan.(d := first + n - 1);
      CandidatesUpto(lan, prefix, first, n - 1) + if SameNetwork(ip, lan, prefix) then [ip] else []
  }

  function Span(first: int, last: int): nat {
    if last < first then 0 else last - first + 1
  }

  /** Neither the prefix length nor an octet is out of range. */
  predicate InRange(prefix: int, first: int, last: int) {
    0 <= prefix <= 32 && (first <= last ==> 0 <= first && last <= 255)
  }

  function Candidates(lan: Ip, prefix: int, first: int, last: int): Result<seq<Ip>> {
    if InRange(prefix, first, last) then Ok(CandidatesUpto(lan, prefix, first, Span(first, last))) else Err(OutOfRange)
  }

  /** The last octets ascend. */
  predicate Ascending(ips: seq<Ip>) {
    forall i, j :: 0 <= i < j < |ips| ==> ips[i].d < ips[j].d
  }

  lemma {:induction false} UptoAre(lan: Ip, prefix: nat, first: int, n: nat)
    requires prefix <= 32 && (n > 0 ==> 0 <= first && first + n <= 256)
    ensures forall ip :: ip in CandidatesUpto(lan, prefix, first, n) <==>
              ip == lan.(d := ip.d) && first <= ip.d < first + n && SameNetwork(ip, lan, prefix)
    ensures Distinct(CandidatesUpto(lan, prefix, first, n)) && Ascending(CandidatesUpto(lan, prefix, first, n))
  {
    hide SameNetwork;
    if n > 0 {
      UptoAre(lan, prefix, first, n - 1);
    }
  }

  /** The candidates are the addresses of the LAN address's own network with a last octet in range, in that order. */
  lemma CandidatesAre(lan: Ip, prefix: int, first: int, last: int)
    requires InRange(prefix, first, last)
    ensures forall ip :: ip in Candidates(lan, prefix, first, last).value <==>
              ip == lan.(d := ip.d) && first <= ip.d <= last && SameNetwork(ip, lan, prefix)
    ensures Distinct(Candidates(lan, prefix, first, last).value)
    ensures Ascending(Candidates(lan, prefix, first, last).value)
  {
    UptoAre(lan, prefix, first, Span(first, last));
  }

  lemma CandidatesRaiseIff(lan: Ip, prefix: int, first: int, last: int)
    ensures Candidates(lan, prefix, first, last).Ok? <==>
            0 <= prefix && prefix <= 32 && (first > last || (first >= 0 && last <= 255))
    ensures Candidates(lan, prefix, first, last).Ok? <==> InRange(prefix, first, last)
    ensures var r := Candidates(lan, prefix, first, last); if r.Ok? then Distinct(r.value) else r.fault == OutOfRange
  {
    if InRange(prefix, first, last) {
      CandidatesAre(lan, prefix, first, last);
    }
  }

  lemma {:induction false} AtLeast256(n: nat)
    requires n >= 8
    ensures exists m: nat :: m > 0 && PowerOfTwo(n) == m * 256
  {
    if n == 8 {
      assert PowerOfTwo(8) == 1 * 256;
    } else {
      AtLeast256(n - 1);
      var m: nat :| m > 0 && PowerOfTwo(n - 1) == m * 256;
      assert PowerOfTwo(n) == (2 * m) * 256;
    }
  }

  lemma LastOctetDrops(x: nat, d: nat, m: nat)
    requires m > 0 && d < 256
    ensures (x * 256 + d) / (m * 256) == x / m
  {
    var q, r := x / m, x % m;
    assert x == q * m + r;
    var y := x * 256 + d;
    assert y == q * (m * 256) + (r * 256 + d);
    assert r * 256 + d < m * 256;
    QuotientIs(y, m * 256, q, r * 256 + d);
  }

  lemma AtLeastOnce(t: int, k: nat)
    requires t >= 1
    ensures t * k >= k
  {
  }

  lemma QuotientIs(y: nat, k: nat, q: nat, r: nat)
    requires k > 0 && r < k && y == q * k + r
    ensures y / k == q
  {
    var p, rest := y / k, y % k;
    assert y == p * k + rest;
    assert (p - q) * k == r - rest;
    assert (q - p) * k == rest - r;
    if p - q >= 1 {
      AtLeastOnce(p - q, k);
    } else if q - p >= 1 {
      AtLeastOnce(q - p, k);
    }
  }

  /** With a prefix of at most 24 bits no octet in range is left out. */
  lemma WidePrefixKeepsAll(lan: Ip, prefix: int, first: int, last: int)
    requires InRange(prefix, first, last) && prefix <= 24
    ensures forall d: byte :: first <= d <= last ==> lan.(d := d) in Candidates(lan, prefix, first, last).value
  {
    CandidatesAre(lan, prefix, first, last);
    AtLeast256(32 - prefix);
    var m: nat :| m > 0 && PowerOfTwo(32 - prefix) == m * 256;
    var x := (lan.a * 256 + lan.b) * 256 + lan.c;
    forall d: byte | first <= d <= last
      ensures SameNetwork(lan.(d := d), lan, prefix)
    {
      LastOctetDrops(x, d, m);
      LastOctetDrops(x, lan.d, m);
    }
  }

  /** From 24 bits on a prefix cuts the last octets into blocks; the network is the LAN address's own block. */
  lemma LongPrefixKeepsBlock(lan: Ip, d: byte, prefix: int)
    requires 24 <= prefix <= 32
    ensures var block := [256, 128, 64, 32, 16, 8, 4, 2, 1][prefix - 24];
            SameNetwork(lan.(d := d), lan, prefix) <==> d / block == lan.d / block
  {
    var x := (lan.a * 256 + lan.b) * 256 + lan.c;
    var k := PowerOfTwo(32 - prefix);
    PowersUpTo256();
    assert k == [256, 128, 64, 32, 16, 8, 4, 2, 1][prefix - 24];
    BlockOf(x, d, prefix);
    BlockOf(x, lan.d, prefix);
  }

  lemma PowersUpTo256()
    ensures PowerOfTwo(0) == 1 && PowerOfTwo(1) == 2 && PowerOfTwo(2) == 4 && PowerOfTwo(3) == 8
    ensures PowerOfTwo(4) == 16 && PowerOfTwo(5) == 32 && PowerOfTwo(6) == 64 && PowerOfTwo(7) == 128
    ensures PowerOfTwo(8) == 256
  {
    assert PowerOfTwo(2) == 4;
    assert PowerOfTwo(4) == 16;
    assert PowerOfTwo(6) == 64;
  }

  lemma BlockOf(x: int, d: int, prefix: int)
    requires 24 <= prefix <= 32
    ensures var block := [256, 128, 64, 32, 16, 8, 4, 2, 1][prefix - 24];
            (x * 256 + d) / block == x * [1, 2, 4, 8, 16, 32, 64, 128, 256][prefix - 24] + d / block
  {
  }

  // ---------------------------------------------------------------- which candidates are tried

  /** The candidates that are neither assigned nor the LAN address itself. */
  function Eligible(candidates: seq<Ip>, taken: set<Ip>, lan: Ip): seq<Ip> {
    if candidates == [] then []
    else
      var ip := candidates[|candidates| - 1];
      Eligible(candidates[..|candidates| - 1], taken, lan) + if ip in taken || ip == lan then [] else [ip]
  }

  function Probed(probes: seq<Probe>): seq<Ip> {
    if probes == [] then [] else Probed(probes[..|probes| - 1]) + [probes[|probes| - 1].ip]
  }

  function FreeOf(probes: seq<Probe>): seq<Ip> {
    if probes == [] then []
    else
      var p := probes[|probes| - 1];
      FreeOf(probes[..|probes| - 1]) + if p.free then [p.ip] else []
  }

  lemma EligibleSnoc(candidates: seq<Ip>, ip: Ip, taken: set<Ip>, lan: Ip)
    ensures Eligible(candidates + [ip], taken, lan)
         == Eligible(candidates, taken, lan) + if ip in taken || ip == lan then [] else [ip]
  {
    assert (candidates + [ip])[..|candidates|] == candidates;
  }

  lemma ProbeSnoc(probes: seq<Probe>, p: Probe)
    ensures Probed(probes + [p]) == Probed(probes) + [p.ip]
    ensures FreeOf(probes + [p]) == FreeOf(probes) + if p.free then [p.ip] else []
  {
    assert (probes + [p])[..|probes|] == probes;
  }

  /** Eligible addresses are distinct when the candidates are. */
  lemma {:induction false} EligibleAre(candidates: seq<Ip>, taken: set<Ip>, lan: Ip)
    requires Distinct(candidates)
    ensures Distinct(Eligible(candidates, taken, lan))
    ensures forall ip :: ip in Eligible(candidates, taken, lan) <==> ip in candidates && ip !in taken && ip != lan
  {
    if candidates != [] {
      var n := |candidates| - 1;
      EligibleAre(candidates[..n], taken, lan);
      assert candidates == candidates[..n] + [candidates[n]];
    }
  }

  /** Leaving out addresses keeps the order of the others. */
  lemma {:induction false} EligibleInOrder(candidates: seq<Ip>, taken: set<Ip>, lan: Ip)
    requires Ascending(candidates)
    ensures Ascending(Eligible(candidates, taken, lan))
    ensures forall ip <- Eligible(candidates, taken, lan) :: ip in candidates
  {
    if candidates != [] {
      var n := |candidates| - 1;
      EligibleInOrder(candidates[..n], taken, lan);
      forall ip <- Eligible(candidates[..n], taken, lan)
        ensures ip.d < candidates[n].d
      {
        assert ip in candidates[..n];
      }
    }
  }

  lemma {:induction false} EligiblePrefix(candidates: seq<Ip>, k: nat, taken: set<Ip>, lan: Ip)
    requires k <= |candidates|
    ensures Eligible(candidates[..k], taken, lan) <= Eligible(candidates, taken, lan)
  {
    if k == |candidates| {
      assert candidates[..k] == candidates;
    } else {
      var n := |candidates| - 1;
      EligiblePrefix(candidates[..n], k, taken, lan);
      assert candidates[..n][..k] == candidates[..k];
    }
  }

  /** The probes in order, and of them the ones that were answered by nobody. */
  lemma {:induction false} ProbedAre(probes: seq<Probe>)
    ensures |Probed(probes)| == |probes| && forall i :: 0 <= i < |probes| ==> Probed(probes)[i] == probes[i].ip
    ensures forall ip :: ip in FreeOf(probes) <==> Probe(ip, true) in probes
  {
    if probes != [] {
      var n := |probes| - 1;
      ProbedAre(probes[..n]);
      assert probes == probes[..n] + [probes[n]];
    }
  }

  /** Free addresses are among the probed ones, and distinct when those are. */
  lemma {:induction false} FreeAreProbed(probes: seq<Probe>)
    requires Distinct(Probed(probes))
    ensures Distinct(FreeOf(probes))
    ensures forall ip <- FreeOf(probes) :: ip in Probed(probes)
  {
    if probes != [] {
      var init, p := probes[..|probes| - 1], probes[|probes| - 1];
      var before := Probed(init);
      assert Probed(probes) == before + [p.ip];
      assert forall i :: 0 <= i < |before| ==> Probed(probes)[i] == before[i];
      assert Probed(probes)[|before|] == p.ip;
      assert p.ip !in before;
      FreeAreProbed(init);
    }
  }

  // ---------------------------------------------------------------- the interface

  /**
   The addresses on an interface: those that others put there, and those that this program's commands put there.
   A command may fail, may take effect although it fails, and others may add addresses before it.
   */
  class Interface {
    var foreign: set<Ip>
    var mine: set<Ip>
    var dad: int
    ghost var stolen: set<Ip>       // addresses of others that a command of this program removed
    ghost var failures: nat         // how many commands have failed
    ghost var addressSlips: nat     // failed additions that took effect, and removals that did not
    ghost var dadSlips: nat         // unreadable settings, and settings that were not written
    ghost var listed: set<Ip>       // the last answer to the question which addresses are assigned
    ghost var probes: seq<Probe>    // every answer to the question whether an address is free

    ghost predicate Valid()
      reads this`foreign, this`mine
    {
      foreign !! mine
    }

    constructor (present: set<Ip>, dad: int)
      ensures Valid() && foreign == present && mine == {} && this.dad == dad && stolen == {}
    {
      foreign, mine, this.dad := present, {}, dad;
      stolen, listed, probes := {}, {}, [];
      failures, addressSlips, dadSlips := 0, 0, 0;
    }

    method OthersAdd()
      requires Valid()
      modifies this`foreign
      ensures Valid() && old(foreign) <= foreign
    {
      var more: set<Ip> := *;
      if more !! mine {
        foreign := foreign + more;
      }
    }

    /** Between two calls others may also remove addresses of theirs. */
    method OthersRemove()
      requires Valid()
      modifies this`foreign
      ensures Valid() && foreign <= old(foreign)
    {
      var fewer: set<Ip> := *;
      foreign := foreign - fewer;
    }

    method ListAssigned() returns (r: Result<set<Ip>>)
      requires Valid()
      modifies this`foreign, this`listed, this`failures
      ensures Valid() && old(foreign) <= foreign
      ensures r.Ok? ==> r.value == listed == foreign + mine && failures == old(failures)
      ensures r.Err? ==> r.fault == CommandFailed && failures > old(failures)
    {
      OthersAdd();
      var ok: bool := *;
      if !ok {
        failures := failures + 1;
        return Err(CommandFailed);
      }
      listed := foreign + mine;
      return Ok(foreign + mine);
    }

    method IsFree(ip: Ip) returns (r: Result<bool>)
      modifies this`probes, this`failures
      ensures r.Ok? ==> probes == old(probes) + [Probe(ip, r.value)] && failures == old(failures)
      ensures r.Err? ==> r.fault == CommandFailed && probes == old(probes) && failures > old(failures)
    {
      var ok: bool, free: bool := *, *;
      if !ok {
        failures := failures + 1;
        return Err(CommandFailed);
      }
      probes := probes + [Probe(ip, free)];
      return Ok(free);
    }

    /** Adding an address that is assigned already fails; a failed command may have added it all the same. */
    method AddAddress(ip: Ip) returns (r: Result<()>)
      requires Valid()
      modifies this`foreign, this`mine, this`failures, this`addressSlips
      ensures Valid() && old(foreign) <= foreign && addressSlips >= old(addressSlips)
      ensures r.Ok? ==> ip !in foreign && ip !in old(mine) && mine == old(mine) + {ip}
      ensures r.Ok? ==> failures == old(failures) && addressSlips == old(addressSlips)
      ensures r.Err? ==> r.fault == CommandFailed && failures > old(failures)
      ensures r.Err? ==> mine == old(mine) || (mine == old(mine) + {ip} && addressSlips > old(addressSlips))
    {
      OthersAdd();
      var ok: bool, took: bool := *, *;
      if ip in foreign + mine || !ok {
        if ip !in foreign && took {
          mine, addressSlips := mine + {ip}, addressSlips + 1;
        }
        failures := failures + 1;
        return Err(CommandFailed);
      }
      mine := mine + {ip};
      return Ok(());
    }

    /** Errors of the removal are silenced, so its success says nothing of its effect. */
    method RemoveAddress(ip: Ip) returns (r: Result<()>)
      requires Valid()
      modifies this`foreign, this`mine, this`stolen, this`failures, this`addressSlips
      ensures Valid()
      ensures old(foreign) - {ip} <= foreign
      ensures mine == old(mine) || mine == old(mine) - {ip}
      ensures failures >= old(failures) && addressSlips >= old(addressSlips)
      ensures addressSlips == old(addressSlips) ==> ip !in foreign + mine
      ensures ip in old(mine) ==> stolen == old(stolen) && old(foreign) <= foreign
    {
      OthersAdd();
      var ok: bool, took: bool := *, *;
      if took {
        stolen := stolen + {ip} * foreign;
        foreign, mine := foreign - {ip}, mine - {ip};
      }
      failures := if ok then failures else failures + 1;
      addressSlips := if took then addressSlips else addressSlips + 1;
      return if ok then Ok(()) else Err(CommandFailed);
    }

    /** The setting, or nothing when the answer is not a number. */
    method ReadDad() returns (r: Result<Option<int>>)
      modifies this`failures, this`dadSlips
      ensures r.Ok? ==> failures == old(failures)
      ensures r.Ok? && r.value.Some? ==> r.value.value == dad && dadSlips == old(dadSlips)
      ensures r.Ok? && r.value.None? ==> dadSlips > old(dadSlips)
      ensures r.Err? ==> r.fault == CommandFailed && failures > old(failures) && dadSlips == old(dadSlips)
    {
      var ok: bool, readable: bool := *, *;
      if !ok {
        failures := failures + 1;
        return Err(CommandFailed);
      }
      if !readable {
        dadSlips := dadSlips + 1;
        return Ok(None);
      }
      return Ok(Some(dad));
    }

    method WriteDad(value: int) returns (r: Result<()>)
      modifies this`dad, this`failures, this`dadSlips
      ensures r.Ok? ==> dad == value && failures == old(failures) && dadSlips == old(dadSlips)
      ensures r.Err? ==> r.fault == CommandFailed && failures > old(failures)
      ensures (dad == value && dadSlips == old(dadSlips)) || (dad == old(dad) && dadSlips > old(dadSlips))
    {
      var ok: bool, took: bool := *, *;
      if ok || took {
        dad := value;
      } else {
        dadSlips := dadSlips + 1;
      }
      failures := if ok then failures else failures + 1;
      return if ok then Ok(()) else Err(CommandFailed);
    }
  }

  // ---------------------------------------------------------------- one acquisition

  /** The probes after `probes0` are those of the eligible among some candidates, and the free ones are acquired. */
  ghost predicate Tried(probes: seq<Probe>, probes0: seq<Probe>, some: seq<Ip>, listed: set<Ip>, lan: Ip,
                        acquired: seq<Ip>, count: int)
  {
    && probes0 <= probes
    && var probes1 := probes[|probes0|..];
    && Probed(probes1) == Eligible(some, listed, lan) && FreeOf(probes1) == acquired
    && |acquired| <= (if count < 0 then 0 else count)
    && (probes1 != [] && |acquired| >= count ==> probes1[|probes1| - 1].free)
  }

  lemma NothingTried(probes: seq<Probe>, candidates: seq<Ip>, listed: set<Ip>, lan: Ip, count: int)
    ensures Tried(probes, probes, candidates[..0], listed, lan, [], count) && Members<Ip>([]) == {}
  {
    assert probes[|probes|..] == [];
  }

  lemma TriedStep(probes: seq<Probe>, probes0: seq<Probe>, some: seq<Ip>, listed: set<Ip>, lan: Ip,
                  acquired: seq<Ip>, count: int, ip: Ip)
    requires Tried(probes, probes0, some, listed, lan, acquired, count) && |acquired| < count
    ensures ip in listed || ip == lan ==> Tried(probes, probes0, some + [ip], listed, lan, acquired, count)
    ensures ip !in listed && ip != lan ==>
              Tried(probes + [Probe(ip, false)], probes0, some + [ip], listed, lan, acquired, count)
    ensures ip !in listed && ip != lan ==>
              Tried(probes + [Probe(ip, true)], probes0, some + [ip], listed, lan, acquired + [ip], count)
  {
    hide Eligible, Probed, FreeOf;
    EligibleSnoc(some, ip, listed, lan);
    var probes1 := probes[|probes0|..];
    forall free
      ensures (probes + [Probe(ip, free)])[|probes0|..] == probes1 + [Probe(ip, free)]
    {
    }
    ProbeSnoc(probes1, Probe(ip, false));
    ProbeSnoc(probes1, Probe(ip, true));
  }

  /**
   The acquired addresses are as many as asked for: the free ones among the eligible candidates, which were probed in
   order until there were enough.
   */
  ghost predicate FirstFree(acquired: seq<Ip>, count: int, candidates: seq<Ip>, listed: set<Ip>, lan: Ip,
                            probes0: seq<Probe>, probes: seq<Probe>)
  {
    && |acquired| == (if count < 0 then 0 else count) && Distinct(acquired)
    && (forall ip <- acquired :: ip in candidates && ip !in listed && ip != lan)
    && probes0 <= probes
    && var tries := probes[|probes0|..];
    && acquired == FreeOf(tries) && Probed(tries) <= Eligible(candidates, listed, lan)
    && (tries != [] ==> tries[|tries| - 1].free)
  }

  /** Every eligible candidate was probed, and fewer than `count` were free. */
  ghost predicate TooFewFree(count: int, candidates: seq<Ip>, listed: set<Ip>, lan: Ip, probes0: seq<Probe>,
                             probes: seq<Probe>)
  {
    && probes0 <= probes
    && var tries := probes[|probes0|..];
    && Probed(tries) == Eligible(candidates, listed, lan) && |FreeOf(tries)| < count
  }

  /** What the tries come to: enough, or too few although every candidate was tried. */
  lemma TriedMeans(probes: seq<Probe>, probes0: seq<Probe>, candidates: seq<Ip>, k: nat, listed: set<Ip>, lan: Ip,
                   acquired: seq<Ip>, count: int)
    requires k <= |candidates| && Distinct(candidates) && (|acquired| < count ==> k == |candidates|)
    requires Tried(probes, probes0, candidates[..k], listed, lan, acquired, count)
    ensures |acquired| >= count ==> FirstFree(acquired, count, candidates, listed, lan, probes0, probes)
    ensures |acquired| < count ==> TooFewFree(count, candidates, listed, lan, probes0, probes)
  {
    assert k == |candidates| ==> candidates[..k] == candidates;
    EligiblePrefix(candidates, k, listed, lan);
    EligibleAre(candidates, listed, lan);
    EligibleAre(candidates[..k], listed, lan);
    FreeAreProbed(probes[|probes0|..]);
    hide Eligible, Probed, FreeOf;
  }

  // ---------------------------------------------------------------- the pool

  /** What a pool changes of the interface, at one time: its addresses and the setting, and the slips of each so far. */
  datatype Mark = Mark(mine: set<Ip>, addressSlips: nat, dad: int, dadSlips: nat)

  /** From one release, or the start, to the next release. */
  datatype Cycle = Cycle(start: Mark, end: Mark) {

    /** Without a slip in the cycle the addresses, and the setting, are at its end what they were at its start. */
    predicate IsRestored() {
      && (start.addressSlips == end.addressSlips ==> start.mine == end.mine)
      && (start.dadSlips == end.dadSlips ==> start.dad == end.dad)
    }
  }

  class Pool {
    const nic: Interface
    const lan: Ip
    const prefix: int
    const first: int
    const last: int
    var added: seq<Ip>
    var savedDad: Option<int>
    ghost const begin: Mark         // how the interface stood at first
    ghost var start: Mark           // how the interface stood when the pool last held nothing
    ghost var cycles: seq<Cycle>    // what each release so far has ended

    /** The pool holds only addresses of its own, each once, and no address of others has been removed. */
    ghost predicate Valid()
      reads this, nic`foreign, nic`mine, nic`stolen, nic`dad, nic`addressSlips, nic`dadSlips
    {
      && nic.Valid() && nic.stolen == {}
      && Distinct(added) && Members(added) <= nic.mine
      && start.addressSlips <= nic.addressSlips && start.dadSlips <= nic.dadSlips && Accounted()
      && Chained(cycles, begin, start)
    }

    /** While there has been no slip since the start of the cycle, the pool accounts for all it has changed. */
    ghost predicate Accounted()
      reads this, nic`mine, nic`dad, nic`addressSlips, nic`dadSlips
    {
      && (nic.addressSlips == start.addressSlips ==>
            nic.mine == start.mine + Members(added) && start.mine !! Members(added))
      && (nic.dadSlips == start.dadSlips ==>
            if savedDad.Some? then savedDad.value == start.dad else nic.dad == start.dad)
    }

    /** How the interface stands now. */
    ghost function Now(): Mark
      reads nic`mine, nic`dad, nic`addressSlips, nic`dadSlips
    {
      Mark(nic.mine, nic.addressSlips, nic.dad, nic.dadSlips)
    }

    constructor (nic: Interface, lan: Ip, prefix: int, first: int, last: int)
      requires nic.Valid() && nic.stolen == {}
      ensures Valid() && this.nic == nic && added == [] && savedDad == None && cycles == []
      ensures begin == start == Now()
      ensures this.lan == lan && this.prefix == prefix && this.first == first && this.last == last
    {
      this.nic, this.lan, this.prefix, this.first, this.last := nic, lan, prefix, first, last;
      added, savedDad, cycles := [], None, [];
      begin := Mark(nic.mine, nic.addressSlips, nic.dad, nic.dadSlips);
      start := Mark(nic.mine, nic.addressSlips, nic.dad, nic.dadSlips);
    }

    /** Turns address detection off, saving the setting first; a saved setting is never overwritten. */
    method DisableDad() returns (r: Result<()>)
      requires Valid()
      modifies this`savedDad, nic`dad, nic`failures, nic`dadSlips
      ensures Valid()
      ensures old(savedDad).Some? ==> savedDad == old(savedDad) && nic.dad == old(nic.dad) && r.Ok?
      ensures r.Ok? ==> savedDad.Some? && (old(savedDad) == None ==> nic.dad == 0)
      ensures old(savedDad) == None && r.Ok? ==>
                savedDad.value == if nic.dadSlips == old(nic.dadSlips) then old(nic.dad) else 1
      ensures old(savedDad) == None && savedDad.Some? ==>
                savedDad.value == old(nic.dad) || (savedDad.value == 1 && nic.dadSlips > old(nic.dadSlips))
      ensures nic.dad != old(nic.dad) ==> savedDad.Some?
      ensures r.Ok? ==> nic.failures == old(nic.failures)
      ensures r.Err? ==> r.fault == CommandFailed && nic.failures > old(nic.failures)
      ensures nic.dadSlips >= old(nic.dadSlips)
    {
      if savedDad.Some? {
        return Ok(());
      }
      var answer :- nic.ReadDad();
      savedDad := Some(answer.GetOr(1));
      var off := nic.WriteDad(0);
      return off;
    }

    /** Writes the saved setting back, and forgets it even when that fails. */
    method RestoreDad()
      modifies this`savedDad, nic`dad, nic`failures, nic`dadSlips
      ensures savedDad == None && nic.failures >= old(nic.failures) && nic.dadSlips >= old(nic.dadSlips)
      ensures nic.dadSlips == old(nic.dadSlips) ==> nic.dad == old(savedDad).GetOr(old(nic.dad))
    {
      if savedDad.None? {
        return;
      }
      var _ := nic.WriteDad(savedDad.value);
      savedDad := None;
    }

    /**
     Tries to remove every address the pool holds, and only those; when the removals take effect they are all gone,
     and when the setting can be written it is the saved one. It ends a cycle, and without a slip in that cycle the
     addresses, and the setting, are what they were at its start.
     */
    method Release()
      requires Valid()
      modifies this`added, this`savedDad, this`start, this`cycles
      modifies nic`foreign, nic`mine, nic`stolen, nic`failures, nic`addressSlips, nic`dad, nic`dadSlips
      ensures Valid() && added == [] && savedDad == None
      ensures old(nic.foreign) <= nic.foreign
      ensures old(nic.mine) - Members(old(added)) <= nic.mine <= old(nic.mine)
      ensures nic.failures >= old(nic.failures)
      ensures nic.addressSlips >= old(nic.addressSlips) && nic.dadSlips >= old(nic.dadSlips)
      ensures nic.addressSlips == old(nic.addressSlips) ==> nic.mine == old(nic.mine) - Members(old(added))
      ensures nic.dadSlips == old(nic.dadSlips) ==> nic.dad == old(savedDad).GetOr(old(nic.dad))
      ensures start == Now() && cycles == old(cycles) + [Cycle(old(start), start)]
    {
      hide Chained;
      ghost var held := Members(added);
      while added != []
        invariant nic.Valid() && nic.stolen == {} && Distinct(added) && Members(added) <= nic.mine
        invariant Members(added) <= held && savedDad == old(savedDad) && nic.dad == old(nic.dad)
        invariant start == old(start) && cycles == old(cycles)
        invariant old(nic.foreign) <= nic.foreign
        invariant old(nic.mine) - held <= nic.mine <= old(nic.mine)
        invariant nic.failures >= old(nic.failures) && nic.dadSlips == old(nic.dadSlips)
        invariant nic.addressSlips >= old(nic.addressSlips)
        invariant nic.addressSlips == old(nic.addressSlips) ==> nic.mine == old(nic.mine) - (held - Members(added))
        decreases |added|
      {
        var n := |added| - 1;
        var ip := added[n];
        PopLast(added);
        added := added[..n];
        var _ := nic.RemoveAddress(ip);
      }
      RestoreDad();
      ghost var end := Mark(nic.mine, nic.addressSlips, nic.dad, nic.dadSlips);
      ChainedSnoc(cycles, begin, Cycle(start, end));
      start, cycles := end, cycles + [Cycle(start, end)];
    }

    /** The addresses on the interface, which others may be adding to. */
    method ListAssigned() returns (r: Result<set<Ip>>)
      requires Valid()
      modifies nic`foreign, nic`listed, nic`failures
      ensures Valid() && old(nic.foreign) <= nic.foreign
      ensures r.Ok? ==> r.value == nic.listed == nic.foreign + nic.mine && nic.failures == old(nic.failures)
      ensures r.Err? ==> r.fault == CommandFailed && nic.failures > old(nic.failures)
    {
      hide Chained;
      r := nic.ListAssigned();
    }

    /** Adds one address to the interface and, when that succeeds, to what the pool holds. */
    method AddOne(ip: Ip) returns (r: Result<()>)
      requires Valid()
      modifies this`added, nic`foreign, nic`mine, nic`failures, nic`addressSlips
      ensures Valid() && old(nic.foreign) <= nic.foreign && nic.addressSlips >= old(nic.addressSlips)
      ensures r.Err? ==> r.fault == CommandFailed && nic.failures > old(nic.failures)
      ensures r.Err? ==> added == old(added) && old(nic.mine) <= nic.mine
      ensures r.Ok? ==> nic.failures == old(nic.failures) && nic.addressSlips == old(nic.addressSlips)
      ensures r.Ok? ==> added == old(added) + [ip] && ip !in old(nic.mine) && nic.mine == old(nic.mine) + {ip}
    {
      hide Chained;
      var _ :- nic.AddAddress(ip);
      AddMember(added, ip);
      added := added + [ip];
      return Ok(());
    }

    /** Tries the candidates in order until `count` addresses are acquired; stops at the first failing command. */
    method TryCandidates(candidates: seq<Ip>, listed: set<Ip>, count: int)
      returns (r: Result<()>, acquired: seq<Ip>, ghost tried: nat)
      requires Valid() && nic.listed == listed && savedDad.Some?
      modifies this`added, nic`foreign, nic`mine, nic`failures, nic`addressSlips, nic`probes
      ensures Valid() && old(nic.foreign) <= nic.foreign && nic.addressSlips >= old(nic.addressSlips)
      ensures added == old(added) + acquired && old(nic.mine) <= nic.mine
      ensures r.Err? ==> r.fault == CommandFailed && nic.failures > old(nic.failures)
      ensures r.Ok? ==> nic.failures == old(nic.failures) && nic.addressSlips == old(nic.addressSlips)
      ensures r.Ok? ==> nic.mine == old(nic.mine) + Members(acquired) && Members(acquired) !! old(nic.mine)
      ensures tried <= |candidates|
      ensures r.Ok? ==> Tried(nic.probes, old(nic.probes), candidates[..tried], listed, lan, acquired, count)
      ensures r.Ok? && |acquired| < count ==> tried == |candidates|
    {
      hide Eligible, Probed, FreeOf, Tried, Members, Valid;
      acquired, tried := [], 0;
      NothingTried(nic.probes, candidates, listed, lan, count);
      for i := 0 to |candidates|
        invariant tried == i
        invariant Valid() && savedDad.Some?
        invariant nic.failures == old(nic.failures) && nic.addressSlips == old(nic.addressSlips)
        invariant old(nic.foreign) <= nic.foreign
        invariant Tried(nic.probes, old(nic.probes), candidates[..tried], listed, lan, acquired, count)
        invariant added == old(added) + acquired
        invariant nic.mine == old(nic.mine) + Members(acquired) && Members(acquired) !! old(nic.mine)
      {
        if |acquired| >= count {
          break;
        }
        var ip := candidates[i];
        assert candidates[..i + 1] == candidates[..i] + [ip];
        TriedStep(nic.probes, old(nic.probes), candidates[..i], listed, lan, acquired, count, ip);
        tried := i + 1;
        if ip in listed || ip == lan {
          continue;
        }
        var free := nic.IsFree(ip);
        if free.Err? {
          return Err(free.fault), acquired, tried;
        }
        if !free.value {
          continue;
        }
        var done := AddOne(ip);
        if done.Err? {
          return Err(done.fault), acquired, tried;
        }
        AddMember(acquired, ip);
        acquired := acquired + [ip];
      }
      return Ok(()), acquired, tried;
    }

    /**
     Adds the first `count` eligible candidates that answer no probe. Success returns exactly those, new and distinct;
     too few means that every eligible candidate was tried and the pool has been released; any other failure is a
     command that failed or a range that is not one, and what was added stays held.
     */
    method Acquire(count: int) returns (r: Result<seq<Ip>>)
      requires Valid()
      modifies this, nic
      ensures Valid()
      ensures old(nic.foreign) <= nic.foreign
      ensures nic.addressSlips >= old(nic.addressSlips) && nic.dadSlips >= old(nic.dadSlips)
      ensures r.Ok? ==> old(nic.foreign + nic.mine) <= nic.listed
      ensures r.Ok? ==> InRange(prefix, first, last)
      ensures r.Ok? ==> FirstFree(r.value, count, Candidates(lan, prefix, first, last).value, nic.listed, lan,
                                  old(nic.probes), nic.probes)
      ensures r.Ok? ==> added == old(added) + r.value && nic.mine == old(nic.mine) + Members(r.value)
                        && Members(r.value) !! old(nic.mine)
      ensures r.Ok? ==> savedDad.Some? && start == old(start) && cycles == old(cycles)
      ensures r.Ok? ==>
                if old(savedDad).Some? then savedDad == old(savedDad) && nic.dad == old(nic.dad)
                else nic.dad == 0 && savedDad.value == if nic.dadSlips == old(nic.dadSlips) then old(nic.dad) else 1
      ensures r.Err? && r.fault == TooFewAddresses ==>
                && added == [] && savedDad == None && InRange(prefix, first, last)
                && TooFewFree(count, Candidates(lan, prefix, first, last).value, nic.listed, lan, old(nic.probes),
                              nic.probes)
                && start == Now() && cycles == old(cycles) + [Cycle(old(start), start)]
      ensures r.Err? && r.fault != TooFewAddresses ==>
                && old(added) <= added && old(nic.mine) <= nic.mine && start == old(start) && cycles == old(cycles)
                && (nic.dad != old(nic.dad) ==> savedDad.Some?)
                && (nic.failures > old(nic.failures) || !InRange(prefix, first, last))
    {
      hide Candidates, InRange, Tried, FirstFree, TooFewFree, SameNetwork, Members, Distinct, Valid, Now;
      var _ :- DisableDad();
      var listed :- ListAssigned();
      CandidatesRaiseIff(lan, prefix, first, last);
      var candidates :- Candidates(lan, prefix, first, last);
      var done, acquired, tried := TryCandidates(candidates, listed, count);
      if done.Err? {
        return Err(done.fault);
      }
      TriedMeans(nic.probes, old(nic.probes), candidates, tried, listed, lan, acquired, count);
      if |acquired| < count {
        Release();
        return Err(TooFewAddresses);
      }
      return Ok(acquired);
    }
  }

  lemma AddMember(s: seq<Ip>, x: Ip)
    ensures Members(s + [x]) == Members(s) + {x}
    ensures Distinct(s) && x !in Members(s) ==> Distinct(s + [x])
  {
  }

  lemma PopLast(s: seq<Ip>)
    requires s != [] && Distinct(s)
    ensures Members(s[..|s| - 1]) == Members(s) - {s[|s| - 1]} && Distinct(s[..|s| - 1])
  {
    var n := |s| - 1;
    assert s == s[..n] + [s[n]];
    assert forall x <- s[..n] :: x != s[n];
  }

  // ---------------------------------------------------------------- any run

  datatype Step = Acquire(count: int) | Release | Others

  /**
   Any run of calls on one pool, with others changing the interface in between, ended by a release: no address of
   others is ever removed by the pool, and every cycle, from one release to the next, has put the pool's addresses back
   to where they stood at its start unless an addition or removal slipped in it, and the setting unless reading or
   writing that slipped; other failures do not matter.
   */
  method AnyRun(nic: Interface, lan: Ip, prefix: int, first: int, last: int, steps: seq<Step>)
    returns (ghost cycles: seq<Cycle>)
    requires nic.Valid() && nic.stolen == {}
    modifies nic
    ensures nic.Valid() && nic.stolen == {}
    ensures cycles != []
    ensures var begin := Mark(old(nic.mine), old(nic.addressSlips), old(nic.dad), old(nic.dadSlips));
            Chained(cycles, begin, Mark(nic.mine, nic.addressSlips, nic.dad, nic.dadSlips))
    ensures nic.addressSlips == old(nic.addressSlips) ==> nic.mine == old(nic.mine)
    ensures nic.dadSlips == old(nic.dadSlips) ==> nic.dad == old(nic.dad)
  {
    hide Chained;
    var pool := new Pool(nic, lan, prefix, first, last);
    ghost var begin := pool.begin;
    for i := 0 to |steps|
      invariant pool.nic == nic && fresh(pool) && pool.Valid() && pool.begin == begin
    {
      match steps[i] {
        case Acquire(count) => var _ := pool.Acquire(count);
        case Release => pool.Release();
        case Others => Disturb(pool);
      }
    }
    pool.Release();
    cycles := pool.cycles;
    ChainRestores(cycles, begin, pool.start);
  }

  /** Others change the interface between two calls. */
  method Disturb(pool: Pool)
    requires pool.Valid()
    modifies pool.nic`foreign
    ensures pool.Valid()
  {
    hide Chained;
    pool.nic.OthersRemove();
    pool.nic.OthersAdd();
  }

  /** From `begin` to `now` through cycles, each starting where the one before ended and restoring what it can. */
  ghost predicate Chained(cycles: seq<Cycle>, begin: Mark, now: Mark) {
    if cycles == [] then now == begin
    else
      var last := cycles[|cycles| - 1];
      last.end == now && last.IsRestored() && Chained(cycles[..|cycles| - 1], begin, last.start)
      && begin.addressSlips <= last.start.addressSlips <= now.addressSlips
      && begin.dadSlips <= last.start.dadSlips <= now.dadSlips
  }

  /** Over a chain without slips everything is restored. */
  lemma {:induction false} ChainRestores(cycles: seq<Cycle>, begin: Mark, now: Mark)
    requires Chained(cycles, begin, now)
    ensures begin.addressSlips <= now.addressSlips && begin.dadSlips <= now.dadSlips
    ensures now.addressSlips == begin.addressSlips ==> now.mine == begin.mine
    ensures now.dadSlips == begin.dadSlips ==> now.dad == begin.dad
  {
    if cycles != [] {
      ChainRestores(cycles[..|cycles| - 1], begin, cycles[|cycles| - 1].start);
    }
  }

  lemma ChainedSnoc(cycles: seq<Cycle>, begin: Mark, c: Cycle)
    requires Chained(cycles, begin, c.start) && c.IsRestored()
    requires c.start.addressSlips <= c.end.addressSlips && c.start.dadSlips <= c.end.dadSlips
    ensures Chained(cycles + [c], begin, c.end)
  {
    ChainRestores(cycles, begin, c.start);
    assert (cycles + [c])[..|cycles|] == cycles;
  }
}
