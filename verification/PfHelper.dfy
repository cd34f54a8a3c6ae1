/** The privileged helper as the object that serves one connection after the other: it parses a request,
    reads both tables, writes both, and writes both back when a write fails (src/f2bguard/pf_helper.py). */
module PfHelper {
  import opened Networks
  import opened PfLaws
  import M = PfModel
  import opened PfModel
  import opened SortedAddresses
  import opened Wire

  /** The two tables of the packet filter and the commands on them. */
  class PacketFilter {
    var v4: set<Network>
    var v6: set<Network>

    function State(): Tables
      reads this
    {
      Pair(v4, v6)
    }

    constructor (tables: Tables)
      ensures State() == tables
    {
      v4, v6 := tables.v4, tables.v6;
    }

    method Show(family: Family, ending: Ending) returns (entries: Option<set<Network>>)
      ensures entries == if ending.Done? then Some(State().Of(family)) else None
    {
      entries := if !ending.Done? then None else if family == V4 then Some(v4) else Some(v6);
    }

    method ReplaceTable(family: Family, entries: set<Network>, ending: Ending) returns (ok: bool)
      modifies this
      ensures State() == Write(old(State()), family, entries, ending) && ok == ending.Done?
    {
      if !ending.FailedBefore? {
        if family == V4 { v4 := entries; } else { v6 := entries; }
      }
      ok := ending.Done?;
    }
  }

  /** Checks one list of a request and collects its addresses. */
  method ParseFamily(values: seq<Literal>, family: Family) returns (addresses: Option<set<Ip>>)
    ensures addresses.Some? <==> forall l | l in values :: AcceptableLiteral(l, family)
    ensures addresses.Some? ==> addresses.value == IpsOf(values)
  {
    var seen: set<Ip> := {};
    var i := 0;
    while i < |values|
      invariant 0 <= i <= |values|
      invariant forall l | l in values[..i] :: AcceptableLiteral(l, family)
      invariant seen == IpsOf(values[..i])
    {
      if !AcceptableLiteral(values[i], family) {
        assert values[i] in values;
        return None;
      }
      assert values[..i + 1] == values[..i] + [values[i]];
      seen := seen + {values[i].ip};
      i := i + 1;
    }
    assert values[..i] == values;
    addresses := Some(seen);
  }

  /** Accepts exactly the acceptable requests and gives the sorted addresses of each family. */
  method ParseRequest(request: Request) returns (r: Option<Pair<seq<Ip>>>)
    ensures r.Some? <==> AcceptableRequest(request)
    ensures r.Some? <==>
      && request.Replacement? && |request.ipv4| + |request.ipv6| <= 100_000
      && (forall l | l in request.ipv4 :: l.Address? && l.canonical && l.ip.family == V4 && Admissible(l.ip))
      && (forall l | l in request.ipv6 :: l.Address? && l.canonical && l.ip.family == V6 && Admissible(l.ip))
    ensures r.Some? ==> r.value == Pair(SortedIps(IpsOf(request.ipv4), V4), SortedIps(IpsOf(request.ipv6), V6))
  {
    if request.OtherOperation? {
      return None;
    }
    var count := |request.ipv4|;
    if count > MAX_ADDRESSES {
      return None;
    }
    var four := ParseFamily(request.ipv4, V4);
    if four.None? {
      return None;
    }
    count := count + |request.ipv6|;
    if count > MAX_ADDRESSES {
      return None;
    }
    var six := ParseFamily(request.ipv6, V6);
    if six.None? {
      return None;
    }
    r := Some(Pair(SortedIps(four.value, V4), SortedIps(six.value, V6)));
  }

  function HostsOf(ips: seq<Ip>): set<Network> {
    set ip | ip in ips :: HostEntry(ip)
  }

  class PFUpdater {
    const filter: PacketFilter

    constructor (filter: PacketFilter)
      ensures this.filter == filter
    {
      this.filter := filter;
    }

    /** The entries of one table, if it can be shown and holds nothing but hosts of its family. */
    method Previous(family: Family, ending: Ending) returns (entries: Option<set<Network>>)
      ensures entries.Some? <==> ending.Done? && forall n | n in filter.State().Of(family) :: IsHostEntry(n, family)
      ensures entries.Some? ==> entries.value == filter.State().Of(family)
    {
      entries := filter.Show(family, ending);
      if entries.None? {
        return;
      }
      var rest := entries.value;
      while rest != {}
        invariant rest <= entries.value
        invariant forall n | n in entries.value - rest :: IsHostEntry(n, family)
        decreases |rest|
      {
        var n :| n in rest;
        if !IsHostEntry(n, family) {
          return None;
        }
        rest := rest - {n};
      }
    }

    /** Writes back what the tables held before, without whitelisted entries. */
    method RollBack(before: Tables, index: NetworkIndex, ghost list: seq<Network>, endings: Endings)
      returns (completed: bool)
      requires index.WellFormed() && index.Represents(list)
      modifies filter
      ensures (filter.State(), Failed(completed)) == Undo(old(filter.State()), before, list, endings)
    {
      var four := set n | n in before.v4 && !index.Contains(AddressOf(n));
      SafeByIndex(before.v4, index, list);
      completed := filter.ReplaceTable(V4, four, endings.undo4);
      var six := set n | n in before.v6 && !index.Contains(AddressOf(n));
      SafeByIndex(before.v6, index, list);
      var ok := filter.ReplaceTable(V6, six, endings.undo6);
      completed := completed && ok;
    }

    /** One replacement. `whitelist` is what the whitelist file parses to when the helper reads it. */
    method Replace(request: Request, whitelist: Option<seq<Network>>, endings: Endings) returns (answer: Answer)
      modifies filter
      ensures (filter.State(), answer) == M.Replace(old(filter.State()), request, whitelist, endings)
    {
      hide SortedIps;
      hide DigestOf;
      hide AcceptableLiteral;
      hide NetworkIndex.WellFormed;
      hide NetworkIndex.Represents;
      hide NetworkIndex.Exclude;
      hide Hosts;
      hide HostsOf;
      hide Unlisted;
      hide IpsOf;
      hide Undo;
      var requested := ParseRequest(request);
      if requested.None? {
        return BadRequest;
      }
      if whitelist.None? {
        return NoWhitelist;
      }
      var index := BuildIndex(whitelist.value);
      var four := index.Exclude(requested.value.v4);
      var six := index.Exclude(requested.value.v6);
      EffectiveIsUnlisted(request.ipv4, index, whitelist.value, V4);
      EffectiveIsUnlisted(request.ipv6, index, whitelist.value, V6);
      var before4 := Previous(V4, endings.show4);
      if before4.None? {
        return NotShown;
      }
      var before6 := Previous(V6, endings.show6);
      if before6.None? {
        return NotShown;
      }
      var before := Pair(before4.value, before6.value);
      var ok := filter.ReplaceTable(V4, HostsOf(four), endings.write4);
      if ok {
        ok := filter.ReplaceTable(V6, HostsOf(six), endings.write6);
      }
      if !ok {
        var completed := RollBack(before, index, whitelist.value, endings);
        return Failed(completed);
      }
      AppliedMetadata(request, whitelist.value);
      answer := Replaced(|four|, |six|, four + six);
    }
  }

  lemma SafeByIndex(entries: set<Network>, index: NetworkIndex, list: seq<Network>)
    requires index.WellFormed() && index.Represents(list)
    ensures (set n | n in entries && !index.Contains(AddressOf(n))) == Safe(entries, list)
  {
    hide NetworkIndex.WellFormed;
    hide NetworkIndex.Represents;
    hide NetworkIndex.Contains;
    hide Listed;
    forall n | n in entries
      ensures index.Contains(AddressOf(n)) <==> Listed(list, AddressOf(n))
    {
      IndexRefinesPrefixSearch(index, list, AddressOf(n));
    }
  }

  /** What is left of a parsed list is the sorted list of the wanted addresses. */
  lemma EffectiveIsUnlisted(values: seq<Literal>, index: NetworkIndex, list: seq<Network>, family: Family)
    requires index.WellFormed() && index.Represents(list)
    requires forall l | l in values :: AcceptableLiteral(l, family)
    ensures var r := index.Exclude(SortedIps(IpsOf(values), family));
            var wanted := Unlisted(IpsOf(values), list);
            r == SortedIps(wanted, family) && HostsOf(r) == Hosts(wanted) && |r| == |wanted|
  {
    hide SortedIps;
    hide NetworkIndex.WellFormed;
    hide NetworkIndex.Represents;
    hide NetworkIndex.Exclude;
    hide Listed;
    hide Admissible;
    ExcludeIsSortedDifference(index, list, IpsOf(values), family);
    var wanted := Unlisted(IpsOf(values), list);
    FamilySize(wanted, family);
    assert (set ip | ip in wanted && ip.family == family) == wanted;
  }

  /** The two sorted lists, one after the other, are what the digest of their union covers. */
  lemma AppliedMetadata(request: Request, list: seq<Network>)
    requires AcceptableRequest(request)
    ensures var new4, new6 := Unlisted(IpsOf(request.ipv4), list), Unlisted(IpsOf(request.ipv6), list);
            DigestOf(new4 + new6) == SortedIps(new4, V4) + SortedIps(new6, V6)
  {
    hide SortedIps;
    hide Listed;
    hide Admissible;
    var new4, new6 := Unlisted(IpsOf(request.ipv4), list), Unlisted(IpsOf(request.ipv6), list);
    SameFamilySorts(new4, new4 + new6, V4);
    SameFamilySorts(new6, new4 + new6, V6);
  }
}
