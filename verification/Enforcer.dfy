/** The service side of enforcement: the helper client that retries, the enforcer that every write and the
    timer share, and the handling of one write (src/f2bguard/server.py). */
module Enforcers {
  import opened ClaimStores
  import E = Enforcement
  import opened Networks
  import opened PfHelper
  import opened PfLaws
  import opened PfModel
  import L = ReceiverLaws
  import R = ReceiverModel
  import SI = StoreInvariant
  import opened SortedAddresses
  import opened Wire

  /** Reaches the helper over its socket; `updater` stands for the other end. */
  class HelperClient {
    const updater: PFUpdater

    constructor (updater: PFUpdater)
      ensures this.updater == updater
    {
      this.updater := updater;
    }

    method Exchange(request: Request, attempt: E.Attempt) returns (answer: Option<Answer>)
      modifies updater.filter
      ensures (updater.filter.State(), answer) == E.Exchange(old(updater.filter.State()), request, attempt)
    {
      hide Replace;
      if !attempt.reached {
        return None;
      }
      var reply := updater.Replace(request, attempt.list, attempt.endings);
      answer := if attempt.answered then Some(reply) else None;
    }

    /** Tries until the helper reports success, a fixed number of times. It succeeds exactly if some attempt
        works on the tables it finds; the first such attempt is the last one made and gives the answer. */
    method Submit(request: Request, attempts: seq<E.Attempt>) returns (answer: Option<Answer>)
      requires |attempts| == E.RETRIES
      modifies updater.filter
      ensures (updater.filter.State(), E.Succeeded(answer)) ==
        (E.Submit(old(updater.filter.State()), request, attempts).0,
         E.Succeeded(E.Submit(old(updater.filter.State()), request, attempts).1))
      ensures E.Succeeded(answer) ==> answer == E.Submit(old(updater.filter.State()), request, attempts).1
      ensures E.Succeeded(answer) <==> E.SomeWorks(old(updater.filter.State()), request, attempts)
      ensures E.LeftAfter(old(updater.filter.State()), updater.filter.State(), request, attempts)
      ensures forall i: nat | E.FirstToWork(old(updater.filter.State()), request, attempts, i) ::
                answer == Some(Replace(E.LeftBy(old(updater.filter.State()), request, attempts, i), request,
                                       attempts[i].list, attempts[i].endings).1)
    {
      hide E.Exchange;
      hide E.SomeWorks;
      hide E.LeftAfter;
      hide Replace;
      ghost var start := updater.filter.State();
      E.SubmitSucceedsIff(start, request, attempts);
      var i := 0;
      answer := None;
      while i < E.RETRIES
        invariant 0 <= i <= E.RETRIES
        invariant E.Submit(old(updater.filter.State()), request, attempts) ==
          E.Submit(updater.filter.State(), request, attempts[i..])
        invariant !E.Succeeded(answer)
      {
        assert attempts[i..][0] == attempts[i] && attempts[i..][1..] == attempts[i + 1..];
        answer := Exchange(request, attempts[i]);
        if E.Succeeded(answer) {
          return;
        }
        i := i + 1;
      }
    }
  }

  /** The tables hold exactly the desired addresses outside the service's list and some list that the
      helper read, and the record says so. */
  ghost predicate ExactlyEnforced(
    tables: Tables, record: Record, desired: set<Ip>, list: seq<Network>, attempts: seq<E.Attempt>)
  {
    exists a | a in attempts ::
      && a.list.Some?
      && var applied := E.Enforceable(desired, list, a.list.value);
      && (forall family :: tables.Of(family) == Hosts(E.OfFamily(applied, family)))
      && record.applied == Some(DigestOf(applied))
      && record.ipv4 == |E.OfFamily(applied, V4)| && record.ipv6 == |E.OfFamily(applied, V6)|
      && (record.applied == record.desired <==>
            forall ip | ip in desired :: !Listed(list, ip) && !Listed(a.list.value, ip))
  }

  /** What an enforcement does to the tables and whether it succeeds: without a whitelist nothing, and
      otherwise what the attempts up to the first that works do. */
  ghost predicate IsEnforcement(
    t: Tables, after: Tables, succeeded: bool, desired: set<Ip>, list: Option<seq<Network>>, attempts: seq<E.Attempt>)
  {
    if list.None? then after == t && !succeeded
    else
      var request := E.RequestOver(desired, list.value);
      (succeeded <==> E.SomeWorks(t, request, attempts)) && E.LeftAfter(t, after, request, attempts)
  }

  /** The answers to a write: success with what the store said and the client's count, the refusals, and
      unavailability, which says whether the write was accepted and whether it is durably applied. */
  datatype Status =
    | Answered(outcome: R.Outcome, count: nat)
    | Rejected
    | Forbidden
    | Conflicting
    | Unavailable(accepted: bool, durable: bool)

  class Enforcer {
    const store: ClaimStore
    const helper: HelperClient
    var lastIndex: Option<NetworkIndex>
    ghost var lastList: seq<Network>

    ghost predicate Valid()
      reads this
    {
      lastIndex.Some? ==> lastIndex.value.WellFormed() && lastIndex.value.Represents(lastList)
    }

    constructor (store: ClaimStore, helper: HelperClient)
      ensures Valid() && this.store == store && this.helper == helper && lastIndex == None
    {
      this.store, this.helper, lastIndex, lastList := store, helper, None, [];
    }

    /** One enforcement, under the lock. It changes no claim. It succeeds exactly if the whitelist can be read
        and some attempt works, and leaves in the tables what the attempts up to that one did; over a valid
        store and tables of hosts that is to say that nothing goes wrong in some attempt. After a success the
        tables are exact for the claims as they are now. */
    method Enforce(list: Option<seq<Network>>, attempts: seq<E.Attempt>, now: real, error: string)
      returns (count: Option<nat>)
      requires Valid() && |attempts| == E.RETRIES
      modifies `lastIndex, `lastList, store`record, helper.updater.filter
      ensures Valid()
      ensures var desired := R.EffectiveIps(store.claims, now);
              && store.record.desired == Some(DigestOf(desired)) && store.record.lastAttempt == Some(now)
              && (count.Some? ==>
                   && list.Some? && lastIndex.Some? && lastList == list.value
                   && store.record.lastSuccess == Some(now) && store.record.lastError == None
                   && count.value == store.record.ipv4 + store.record.ipv6
                   && ExactlyEnforced(helper.updater.filter.State(), store.record, desired, list.value, attempts))
              && (count.None? ==>
                   && lastIndex == old(lastIndex) && store.record.lastError.Some?
                   && store.record.applied == old(store.record.applied)
                   && store.record.lastSuccess == old(store.record.lastSuccess))
      ensures IsEnforcement(old(helper.updater.filter.State()), helper.updater.filter.State(), count.Some?,
                            R.EffectiveIps(store.claims, now), list, attempts)
      ensures SI.StoreOk(store.State(), R.SOURCE_CAPS) && list.Some? ==>
                (count.Some? <==>
                  E.HostsOnly(old(helper.updater.filter.State())) && exists a | a in attempts :: E.GoesWell(a))
    {
      hide SI.StoreOk;
      hide E.HostsOnly;
      hide E.GoesWell;
      hide E.SomeWorks;
      hide E.LeftAfter;
      hide SortedIps;
      hide E.RequestOver;
      hide NetworkIndex.WellFormed;
      hide NetworkIndex.Represents;
      hide NetworkIndex.Exclude;
      hide R.EffectiveIps;
      hide E.Submit;
      hide Hosts;
      hide E.Enforceable;
      hide Listed;
      var v4, v6 := store.Effective(now);
      ghost var desired := R.EffectiveIps(store.claims, now);
      var digest := v4 + v6;
      assert digest == DigestOf(desired);
      store.RecordAttempt(digest, now);
      if list.None? {
        store.RecordFailure(digest, error, now);
        return None;
      }
      var index := BuildIndex(list.value);
      var request := Replacement(E.Literals(index.Exclude(v4)), E.Literals(index.Exclude(v6)));
      assert request == E.RequestFor(desired, index);
      E.RequestDependsOnListOnly(desired, index, list.value);
      ghost var before := helper.updater.filter.State();
      if SI.StoreOk(store.State(), R.SOURCE_CAPS) {
        E.StoredStateIsEnforcedIff(store.State(), now, list.value, before, attempts);
      }
      var answer := helper.Submit(request, attempts);
      if !E.Succeeded(answer) {
        store.RecordFailure(digest, error, now);
        return None;
      }
      ghost var helperList := E.SuccessMeansTablesAreExact(before, desired, index, list.value, attempts);
      var applied := answer.value;
      store.RecordSuccess(digest, Some(applied.digest), applied.applied4, applied.applied6, now);
      lastIndex, lastList := Some(index), list.value;
      count := Some(applied.applied4 + applied.applied6);
    }

    /** How many addresses one client contributes to the tables, by the whitelist last enforced. It fails
        only for a client with effective addresses before the first enforcement. */
    method ClientEffectiveCount(client: Client, now: real) returns (count: Option<nat>)
      requires Valid()
      ensures var own := EffectiveOf(store.claims, client, now);
              && (count.None? <==> own != {} && lastIndex.None?)
              && (lastIndex.Some? ==> count == Some(|Unlisted(own, lastList)|))
              && (lastIndex.None? && own == {} ==> count == Some(0))
    {
      hide SortedIps;
      hide NetworkIndex.WellFormed;
      hide NetworkIndex.Represents;
      hide NetworkIndex.Exclude;
      hide EffectiveOf;
      hide Listed;
      var v4, v6 := store.ClientEffective(client, now);
      ghost var own := EffectiveOf(store.claims, client, now);
      EmptyIfNoneListed(own);
      if v4 == [] && v6 == [] {
        assert Unlisted(own, lastList) == {};
        return Some(0);
      }
      if lastIndex.None? {
        return None;
      }
      CountByIndex(own, lastIndex.value, lastList);
      count := Some(|lastIndex.value.Exclude(v4)| + |lastIndex.value.Exclude(v6)|);
    }

    /** One write: validate, commit to the store, then enforce. A valid request is forbidden exactly if it
        names a jail outside the client's. A write that is not accepted changes nothing. One is answered with
        success only after an enforcement that read the claims as this write left them. */
    method Write(
      request: R.Request, maximum: nat, allowed: set<Jail>, list: Option<seq<Network>>, attempts: seq<E.Attempt>,
      now: real, error: string)
      returns (status: Status)
      requires Valid() && |attempts| == E.RETRIES
      modifies `lastIndex, `lastList, store, helper.updater.filter
      ensures Valid()
      ensures status.Forbidden? <==>
                && R.Valid(request, maximum)
                && match request
                   case Events(_, events, _) => exists e | e in events :: e.jail !in allowed
                   case Replace(_, _, _, claims, _) => exists c | c in claims :: c.jail !in allowed
      ensures !(status.Answered? || (status.Unavailable? && status.accepted)) ==>
                && store.State() == old(store.State()) && store.record == old(store.record)
                && helper.updater.filter.State() == old(helper.updater.filter.State())
                && lastIndex == old(lastIndex) && lastList == old(lastList)
      ensures var (left, r) := R.Apply(old(store.State()), request, store.caps, now);
              var admitted := R.Valid(request, maximum) && !status.Forbidden?;
              && store.State() == (if admitted then left else old(store.State()))
              && (status.Rejected? <==>
                   || !R.Valid(request, maximum)
                   || (admitted && r in {R.Refused(R.Malformed), R.Refused(R.ClientLimit), R.Refused(R.GlobalLimit)}))
              && (status.Conflicting? <==> admitted && r == R.Refused(R.Conflict))
              && (admitted && r == R.Refused(R.Integrity) ==> status == Unavailable(false, false))
              && (admitted && !r.Refused? ==>
                   && (status.Answered? || status == Unavailable(true, !r.Stale?))
                   && IsEnforcement(old(helper.updater.filter.State()), helper.updater.filter.State(), status.Answered?,
                                    R.EffectiveIps(store.claims, now), list, attempts))
              && (status.Answered? ==> admitted && !r.Refused? && status.outcome == r)
      ensures status.Answered? ==>
                && list.Some?
                && status.count == |Unlisted(EffectiveOf(store.claims, request.client, now), list.value)|
                && ExactlyEnforced(helper.updater.filter.State(), store.record,
                                   R.EffectiveIps(store.claims, now), list.value, attempts)
    {
      hide R.ApplyEvents;
      hide R.ApplySnapshot;
      hide R.Valid;
      hide R.EffectiveIps;
      hide EffectiveOf;
      hide ExactlyEnforced;
      hide Unlisted;
      hide IsEnforcement;
      hide SI.StoreOk;
      if !R.Valid(request, maximum) {
        return Rejected;
      }
      if !(JailsOf(request) <= allowed) {
        return Forbidden;
      }
      var r: R.Outcome;
      match request {
        case Events(client, batch, limit) => r := store.ApplyEvents(client, batch, limit, now);
        case Replace(client, id, number, claims, limit) =>
          r := store.ApplySnapshot(client, id, number, claims, limit, now);
      }
      if r.Refused? {
        L.NotAppliedChangesNothing(old(store.State()), request, store.caps, now);
        match r.why {
          case Conflict => return Conflicting;
          case Integrity => return Unavailable(false, false);
          case _ => return Rejected;
        }
      }
      var total := Enforce(list, attempts, now, error);
      if total.None? {
        return Unavailable(true, !r.Stale?);
      }
      var count := ClientEffectiveCount(request.client, now);
      status := Answered(r, count.value);
    }
  }

  /** The jails a request names. */
  function JailsOf(request: R.Request): set<Jail> {
    match request
    case Events(_, events, _) => set e | e in events :: e.jail
    case Replace(_, _, _, claims, _) => set c | c in claims :: c.jail
  }

  lemma EmptyIfNoneListed(ips: set<Ip>)
    ensures SortedIps(ips, V4) == [] && SortedIps(ips, V6) == [] <==> ips == {}
  {
    if ips != {} {
      var ip :| ip in ips;
      assert ip in SortedIps(ips, V4) || ip in SortedIps(ips, V6);
    }
  }

  /** Excluding by the index and counting both lists counts the addresses outside the whitelist. */
  lemma CountByIndex(ips: set<Ip>, index: NetworkIndex, list: seq<Network>)
    requires index.WellFormed() && index.Represents(list)
    ensures |index.Exclude(SortedIps(ips, V4))| + |index.Exclude(SortedIps(ips, V6))| == |Unlisted(ips, list)|
  {
    hide SortedIps;
    ExcludeIsSortedDifference(index, list, ips, V4);
    ExcludeIsSortedDifference(index, list, ips, V6);
    E.DesiredListsFit(Unlisted(ips, list));
  }
}
