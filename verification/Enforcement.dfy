/** One enforcement: read the effective addresses, drop whitelisted ones, and have the helper replace
    the tables, with retries (src/f2bguard/server.py). */
module Enforcement {
  import C = Convergence
  import Rep = Replication
  import opened Networks
  import opened PfLaws
  import opened PfModel
  import R = ReceiverModel
  import opened Sets
  import opened SortedAddresses
  import SI = StoreInvariant
  import opened Wire

  const RETRIES := 3

  function Literals(ips: seq<Ip>): seq<Literal> {
    seq(|ips|, i requires 0 <= i < |ips| => Address(ips[i], true))
  }

  /** The request that is sent for a desired set. */
  function RequestFor(desired: set<Ip>, index: NetworkIndex): Request
    requires index.WellFormed()
  {
    Replacement(Literals(index.Exclude(SortedIps(desired, V4))), Literals(index.Exclude(SortedIps(desired, V6))))
  }

  /** The same request without the index: both families of the addresses outside the whitelist, sorted. */
  function RequestOver(desired: set<Ip>, list: seq<Network>): Request {
    Replacement(Literals(SortedIps(Unlisted(desired, list), V4)), Literals(SortedIps(Unlisted(desired, list), V6)))
  }

  lemma RequestDependsOnListOnly(desired: set<Ip>, index: NetworkIndex, list: seq<Network>)
    requires index.WellFormed() && index.Represents(list)
    ensures RequestFor(desired, index) == RequestOver(desired, list)
  {
    hide SortedIps;
    hide NetworkIndex.Represents;
    hide NetworkIndex.WellFormed;
    ExcludeIsSortedDifference(index, list, desired, V4);
    ExcludeIsSortedDifference(index, list, desired, V6);
  }

  /** One attempt to reach the helper: it may not get there; if it does, the helper runs with the
      whitelist it then reads, and its answer may be lost. */
  datatype Attempt = Attempt(reached: bool, list: Option<seq<Network>>, endings: Endings, answered: bool)

  function Exchange(t: Tables, request: Request, a: Attempt): (Tables, Option<Answer>) {
    if !a.reached then (t, None)
    else
      var (after, answer) := Replace(t, request, a.list, a.endings);
      (after, if a.answered then Some(answer) else None)
  }

  predicate Succeeded(answer: Option<Answer>) {
    answer.Some? && answer.value.Replaced?
  }

  /** Attempts until one succeeds. */
  function Submit(t: Tables, request: Request, attempts: seq<Attempt>): (Tables, Option<Answer>)
    decreases |attempts|
  {
    if attempts == [] then (t, None)
    else
      var (after, answer) := Exchange(t, request, attempts[0]);
      if Succeeded(answer) then (after, answer) else Submit(after, request, attempts[1..])
  }

  // ---------------------------------------------------------------- when a submission succeeds

  /** The attempt reaches the helper, nothing stops the helper on the tables it finds, and its answer
      arrives. */
  predicate Works(t: Tables, request: Request, a: Attempt) {
    && a.reached && a.answered && Begins(t, request, a.list, a.endings)
    && a.endings.write4.Done? && a.endings.write6.Done?
  }

  /** The tables after the first i attempts, if all of them are made. */
  function LeftBy(t: Tables, request: Request, attempts: seq<Attempt>, i: nat): Tables
    requires i <= |attempts|
    decreases i
  {
    if i == 0 then t
    else
      var a := attempts[0];
      LeftBy(if a.reached then Replace(t, request, a.list, a.endings).0 else t, request, attempts[1..], i - 1)
  }

  predicate WorksAt(t: Tables, request: Request, attempts: seq<Attempt>, i: nat)
    requires i < |attempts|
  {
    Works(LeftBy(t, request, attempts, i), request, attempts[i])
  }

  predicate SomeWorks(t: Tables, request: Request, attempts: seq<Attempt>) {
    exists i | 0 <= i < |attempts| :: WorksAt(t, request, attempts, i)
  }

  predicate FirstToWork(t: Tables, request: Request, attempts: seq<Attempt>, i: nat) {
    && i < |attempts| && WorksAt(t, request, attempts, i)
    && forall j: nat | j < i :: !WorksAt(t, request, attempts, j)
  }

  /** The tables are those that the first attempt to work leaves, or all attempts if none does. */
  ghost predicate LeftAfter(t: Tables, after: Tables, request: Request, attempts: seq<Attempt>) {
    && (forall i: nat | FirstToWork(t, request, attempts, i) :: after == LeftBy(t, request, attempts, i + 1))
    && (!SomeWorks(t, request, attempts) ==> after == LeftBy(t, request, attempts, |attempts|))
  }

  lemma ExchangeSucceedsIff(t: Tables, request: Request, a: Attempt)
    ensures var (after, answer) := Exchange(t, request, a);
            && (Succeeded(answer) <==> Works(t, request, a))
            && after == (if a.reached then Replace(t, request, a.list, a.endings).0 else t)
            && (Succeeded(answer) ==> answer == Some(Replace(t, request, a.list, a.endings).1))
  {
    ReplacementIsAllOrPrior(t, request, a.list, a.endings, V4);
    hide Replace;
  }

  lemma LaterAttempts(t: Tables, request: Request, attempts: seq<Attempt>, i: nat)
    requires attempts != [] && i <= |attempts[1..]|
    ensures var next := LeftBy(t, request, attempts, 1);
            && LeftBy(t, request, attempts, i + 1) == LeftBy(next, request, attempts[1..], i)
            && (i < |attempts[1..]| ==>
                 WorksAt(t, request, attempts, i + 1) == WorksAt(next, request, attempts[1..], i))
  {
    hide Replace;
    hide Works;
  }

  /** Attempts go on until one works: that is when a submission succeeds, with the answer of the first one
      to work and the tables it leaves; otherwise all of them are made. */
  lemma {:induction false} SubmitSucceedsIff(t: Tables, request: Request, attempts: seq<Attempt>)
    ensures var (after, answer) := Submit(t, request, attempts);
            && (Succeeded(answer) <==> SomeWorks(t, request, attempts))
            && LeftAfter(t, after, request, attempts)
            && (forall i: nat | FirstToWork(t, request, attempts, i) ::
                  answer == Some(Replace(LeftBy(t, request, attempts, i), request, attempts[i].list, attempts[i].endings).1))
    decreases |attempts|
  {
    hide Exchange;
    hide Replace;
    hide Works;
    if attempts != [] {
      ExchangeSucceedsIff(t, request, attempts[0]);
      assert WorksAt(t, request, attempts, 0) <==> Works(t, request, attempts[0]);
      var next, rest := LeftBy(t, request, attempts, 1), attempts[1..];
      if !WorksAt(t, request, attempts, 0) {
        SubmitSucceedsIff(next, request, rest);
        forall i: nat | i <= |rest|
          ensures LeftBy(t, request, attempts, i + 1) == LeftBy(next, request, rest, i)
          ensures i < |rest| ==> WorksAt(t, request, attempts, i + 1) == WorksAt(next, request, rest, i)
        {
          LaterAttempts(t, request, attempts, i);
        }
        forall i: nat | FirstToWork(t, request, attempts, i)
          ensures i > 0 && FirstToWork(next, request, rest, i - 1)
        {
          assert forall j: nat | j < i - 1 :: WorksAt(next, request, rest, j) == WorksAt(t, request, attempts, j + 1);
        }
        if i: nat :| i < |rest| && WorksAt(next, request, rest, i) {
          assert WorksAt(t, request, attempts, i + 1);
        }
      }
    }
  }

  predicate HostsOnly(t: Tables) {
    (forall n | n in t.v4 :: n.family == V4 && n.prefix == 32) && forall n | n in t.v6 :: n.family == V6 && n.prefix == 128
  }

  /** Nothing goes wrong in the attempt, whatever the tables hold. */
  predicate GoesWell(a: Attempt) {
    && a.reached && a.answered && a.list.Some?
    && a.endings.show4.Done? && a.endings.show6.Done? && a.endings.write4.Done? && a.endings.write6.Done?
  }

  lemma {:induction false} TablesStayHosts(t: Tables, request: Request, attempts: seq<Attempt>, i: nat)
    requires i <= |attempts|
    ensures HostsOnly(LeftBy(t, request, attempts, i)) <==> HostsOnly(t)
    decreases i
  {
    if i > 0 {
      var a := attempts[0];
      if a.reached {
        OneReplacementStaysHosts(t, request, a.list, a.endings);
      }
      hide Replace;
      hide HostsOnly;
      TablesStayHosts(LeftBy(t, request, attempts, 1), request, attempts[1..], i - 1);
    }
  }

  lemma OneReplacementStaysHosts(t: Tables, request: Request, whitelist: Option<seq<Network>>, endings: Endings)
    ensures HostsOnly(Replace(t, request, whitelist, endings).0) <==> HostsOnly(t)
  {
    EachTableIsOneOfThree(t, request, whitelist, endings, V4);
    EachTableIsOneOfThree(t, request, whitelist, endings, V6);
    if Begins(t, request, whitelist, endings) {
      WantedAreHosts(request, whitelist.value, V4);
      WantedAreHosts(request, whitelist.value, V6);
    }
    hide Replace;
    hide AcceptableRequest;
    hide Wanted;
    hide Hosts;
  }

  lemma WantedAreHosts(request: Request, whitelist: seq<Network>, family: Family)
    requires AcceptableRequest(request)
    ensures forall n | n in Hosts(Wanted(request, whitelist, family)) ::
      n.family == family && n.prefix == if family == V4 then 32 else 128
  {
    hide Listed;
    hide Admissible;
  }

  /** An acceptable request over tables of hosts succeeds exactly if nothing goes wrong in some attempt:
      what the attempts before it leave can never make it fail. */
  lemma SomeWorksIffSomeGoesWell(t: Tables, request: Request, attempts: seq<Attempt>)
    ensures SomeWorks(t, request, attempts) <==>
      AcceptableRequest(request) && HostsOnly(t) && exists a | a in attempts :: GoesWell(a)
  {
    hide AcceptableRequest;
    hide LeftBy;
    hide HostsOnly;
    forall i: nat | i < |attempts|
      ensures WorksAt(t, request, attempts, i) <==> AcceptableRequest(request) && HostsOnly(t) && GoesWell(attempts[i])
    {
      TablesStayHosts(t, request, attempts, i);
      WorksOnHosts(LeftBy(t, request, attempts, i), request, attempts[i]);
    }
    if a :| a in attempts && GoesWell(a) {
      var i :| 0 <= i < |attempts| && attempts[i] == a;
    }
  }

  lemma WorksOnHosts(t: Tables, request: Request, a: Attempt)
    ensures Works(t, request, a) <==> AcceptableRequest(request) && HostsOnly(t) && GoesWell(a)
  {
  }

  // ---------------------------------------------------------------- stored state is enforceable

  lemma {:induction false} EffectiveCount(claims: map<R.ClaimId, R.ClaimRow>, now: real)
    ensures |R.EffectiveIps(claims, now)| <= |claims|
  {
    if claims.Keys != {} {
      var id :| id in claims.Keys;
      var rest := claims - {id};
      EffectiveCount(rest, now);
      var few, all := R.EffectiveIps(rest, now), R.EffectiveIps(claims, now);
      assert claims.Keys == rest.Keys + {id};
      forall ip | ip in all
        ensures ip in few + {claims[id].ip}
      {
        var k :| k in claims && R.InForce(claims[k], now) && claims[k].ip == ip;
        assert k != id ==> k in rest;
      }
      SubsetSize(all, few + {claims[id].ip});
    } else {
      assert R.EffectiveIps(claims, now) == {};
    }
  }

  lemma DesiredListsFit(ips: set<Ip>)
    ensures |SortedIps(ips, V4)| + |SortedIps(ips, V6)| == |ips|
  {
    hide SortedIps;
    FamilySize(ips, V4);
    FamilySize(ips, V6);
    var v4 := set ip | ip in ips && ip.family == V4;
    var v6 := set ip | ip in ips && ip.family == V6;
    assert ips == v4 + v6 by {
      assert forall ip: Ip :: ip.family == V4 || ip.family == V6;
    }
    assert v4 !! v6;
  }

  /** The store's invariant guarantees that the helper accepts every request the service builds. */
  lemma StoredStateIsAlwaysEnforceable(t: R.Tables, now: real, index: NetworkIndex, networks: seq<Network>)
    requires SI.StoreOk(t, R.SOURCE_CAPS) && index.WellFormed() && index.Represents(networks)
    ensures AcceptableRequest(RequestFor(R.EffectiveIps(t.claims, now), index))
  {
    hide NetworkIndex.Represents;
    hide NetworkIndex.WellFormed;
    hide SortedIps;
    hide NetworkIndex.Exclude;
    hide Admissible;
    var desired := R.EffectiveIps(t.claims, now);
    assert forall ip | ip in desired :: Admissible(ip);
    EffectiveCount(t.claims, now);
    DesiredListsFit(desired);
    ExcludeFromSorted(index, networks, SortedIps(desired, V4));
    ExcludeFromSorted(index, networks, SortedIps(desired, V6));
    var request := RequestFor(desired, index);
    AcceptableLiterals(index.Exclude(SortedIps(desired, V4)), V4);
    AcceptableLiterals(index.Exclude(SortedIps(desired, V6)), V6);
  }

  lemma RequestOverIsAcceptable(t: R.Tables, now: real, networks: seq<Network>)
    requires SI.StoreOk(t, R.SOURCE_CAPS)
    ensures AcceptableRequest(RequestOver(R.EffectiveIps(t.claims, now), networks))
  {
    hide SortedIps;
    hide Listed;
    hide Admissible;
    var desired := R.EffectiveIps(t.claims, now);
    var kept := Unlisted(desired, networks);
    assert forall ip | ip in kept :: Admissible(ip);
    EffectiveCount(t.claims, now);
    SubsetSize(kept, desired);
    DesiredListsFit(kept);
    AcceptableLiterals(SortedIps(kept, V4), V4);
    AcceptableLiterals(SortedIps(kept, V6), V6);
  }

  /** What the store's invariant makes of it: over tables of hosts, enforcing what is stored succeeds
      exactly if nothing goes wrong in some attempt. */
  lemma StoredStateIsEnforcedIff(
    t: R.Tables, now: real, networks: seq<Network>, tables: Tables, attempts: seq<Attempt>)
    requires SI.StoreOk(t, R.SOURCE_CAPS)
    ensures SomeWorks(tables, RequestOver(R.EffectiveIps(t.claims, now), networks), attempts) <==>
      HostsOnly(tables) && exists a | a in attempts :: GoesWell(a)
  {
    hide *;
    RequestOverIsAcceptable(t, now, networks);
    SomeWorksIffSomeGoesWell(tables, RequestOver(R.EffectiveIps(t.claims, now), networks), attempts);
  }

  lemma AcceptableLiterals(ips: seq<Ip>, family: Family)
    requires forall ip | ip in ips :: Admissible(ip) && ip.family == family
    ensures forall l | l in Literals(ips) :: AcceptableLiteral(l, family)
  {
    hide Admissible;
    var literals := Literals(ips);
    forall l | l in literals
      ensures l.Address? && l.canonical && l.ip in ips
    {
      var i :| 0 <= i < |literals| && literals[i] == l;
      assert ips[i] in ips;
    }
  }

  // ---------------------------------------------------------------- what a success means

  lemma IpsOfLiterals(ips: seq<Ip>)
    ensures IpsOf(Literals(ips)) == set ip | ip in ips
  {
    var literals := Literals(ips);
    forall ip | ip in ips
      ensures ip in IpsOf(literals)
    {
      var i :| 0 <= i < |ips| && ips[i] == ip;
      assert literals[i] in literals;
    }
    forall l | l in literals
      ensures l.Address? && l.ip in ips
    {
      var i :| 0 <= i < |literals| && literals[i] == l;
    }
  }

  lemma RequestedSet(desired: set<Ip>, index: NetworkIndex, networks: seq<Network>, family: Family)
    requires index.WellFormed() && index.Represents(networks)
    ensures var request := RequestFor(desired, index);
            IpsOf(if family == V4 then request.ipv4 else request.ipv6) ==
              set ip | ip in desired && ip.family == family && !Listed(networks, ip)
  {
    hide NetworkIndex.Represents;
    hide NetworkIndex.WellFormed;
    hide SortedIps;
    hide NetworkIndex.Exclude;
    hide Listed;
    ExcludeFromSorted(index, networks, SortedIps(desired, family));
    IpsOfLiterals(index.Exclude(SortedIps(desired, family)));
  }

  /** The desired addresses that neither reading of the whitelist covers. */
  function Enforceable(desired: set<Ip>, service: seq<Network>, helper: seq<Network>): set<Ip> {
    set ip | ip in desired && !Listed(service, ip) && !Listed(helper, ip)
  }

  function OfFamily(ips: set<Ip>, family: Family): set<Ip> {
    set ip | ip in ips && ip.family == family
  }

  lemma ExchangeIsExact(t: Tables, desired: set<Ip>, index: NetworkIndex, networks: seq<Network>, a: Attempt)
    requires index.WellFormed() && index.Represents(networks)
    requires Succeeded(Exchange(t, RequestFor(desired, index), a).1)
    ensures a.list.Some?
    ensures var (after, answer) := Exchange(t, RequestFor(desired, index), a);
            var applied := Enforceable(desired, networks, a.list.value);
            && (forall family :: after.Of(family) == Hosts(OfFamily(applied, family)))
            && answer.value.digest == DigestOf(applied)
            && answer.value.applied4 == |OfFamily(applied, V4)| && answer.value.applied6 == |OfFamily(applied, V6)|
  {
    hide NetworkIndex.Represents;
    hide NetworkIndex.WellFormed;
    hide RequestFor;
    hide Listed;
    hide AcceptableRequest;
    hide DigestOf;
    var request := RequestFor(desired, index);
    RequestIsReplacement(desired, index);
    RequestedSet(desired, index, networks, V4);
    RequestedSet(desired, index, networks, V6);
    var list := a.list.value;
    var applied := Enforceable(desired, networks, list);
    assert Unlisted(IpsOf(request.ipv4), list) == OfFamily(applied, V4);
    assert Unlisted(IpsOf(request.ipv6), list) == OfFamily(applied, V6);
    assert OfFamily(applied, V4) + OfFamily(applied, V6) == applied by {
      assert forall ip: Ip :: ip.family == V4 || ip.family == V6;
    }
  }

  lemma RequestIsReplacement(desired: set<Ip>, index: NetworkIndex)
    requires index.WellFormed()
    ensures RequestFor(desired, index).Replacement?
  {
  }

  /** A successful enforcement, whatever earlier attempts did: one attempt's helper answered, the tables
      hold exactly the desired addresses outside both readings of the whitelist, and the two digests
      agree exactly if no desired address is whitelisted in either. */
  lemma {:induction false} SuccessMeansTablesAreExact(
    t: Tables, desired: set<Ip>, index: NetworkIndex, networks: seq<Network>, attempts: seq<Attempt>)
    returns (helperList: seq<Network>)
    requires index.WellFormed() && index.Represents(networks)
    requires Succeeded(Submit(t, RequestFor(desired, index), attempts).1)
    ensures exists a | a in attempts :: a.list == Some(helperList)
    ensures var (after, answer) := Submit(t, RequestFor(desired, index), attempts);
            && (forall family :: after.Of(family) == Hosts(OfFamily(Enforceable(desired, networks, helperList), family)))
            && answer.value.applied4 == |OfFamily(Enforceable(desired, networks, helperList), V4)|
            && answer.value.applied6 == |OfFamily(Enforceable(desired, networks, helperList), V6)|
            && answer.value.digest == DigestOf(Enforceable(desired, networks, helperList))
            && (answer.value.digest == DigestOf(desired) <==>
                  forall ip | ip in desired :: !Listed(networks, ip) && !Listed(helperList, ip))
    decreases |attempts|
  {
    hide NetworkIndex.Represents;
    hide NetworkIndex.WellFormed;
    hide RequestFor;
    hide Listed;
    hide Exchange;
    hide DigestOf;
    hide Hosts;
    var request := RequestFor(desired, index);
    var (after, answer) := Exchange(t, request, attempts[0]);
    if Succeeded(answer) {
      ExchangeIsExact(t, desired, index, networks, attempts[0]);
      helperList := attempts[0].list.value;
      assert attempts[0] in attempts;
      var applied := Enforceable(desired, networks, helperList);
      DigestsAgreeIff(applied, desired);
      assert applied == desired <==> forall ip | ip in desired :: !Listed(networks, ip) && !Listed(helperList, ip);
    } else {
      helperList := SuccessMeansTablesAreExact(after, desired, index, networks, attempts[1..]);
    }
  }

  /** The end of the pipeline: take any run in which no host records anything new and every worker takes an
      answer for each row it had undelivered, whatever else happens in it. If one enforcement then
      succeeds, the tables hold exactly the addresses that some host had open when the run began and those
      that other clients have in force, less the whitelist. */
  lemma DrainedAndEnforced(
    s: Rep.System, moves: seq<Rep.Move>, now: real,
    t: Tables, index: NetworkIndex, networks: seq<Network>, attempts: seq<Attempt>)
    returns (helperList: seq<Network>)
    requires Rep.SystemInv(s) && C.AllAnswered(s, moves)
    requires index.WellFormed() && index.Represents(networks)
    requires var desired := R.EffectiveIps(Rep.Run(s, moves).tables.claims, now);
             Succeeded(Submit(t, RequestFor(desired, index), attempts).1)
    ensures exists a | a in attempts :: a.list == Some(helperList)
    ensures var final := Rep.Run(s, moves);
            var after := Submit(t, RequestFor(R.EffectiveIps(final.tables.claims, now), index), attempts).0;
            var claimed := C.ClaimedSomewhere(s) + C.ForeignIps(final, now);
            forall family :: after.Of(family) == Hosts(OfFamily(Enforceable(claimed, networks, helperList), family))
  {
    hide *;
    C.AnsweredRunEnforcesUnion(s, moves, now);
    helperList := SuccessMeansTablesAreExact(
      t, R.EffectiveIps(Rep.Run(s, moves).tables.claims, now), index, networks, attempts);
  }
}
