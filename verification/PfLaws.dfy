/** What a replacement leaves in the tables, whichever of its commands fail. */
module PfLaws {
  import opened Networks
  import opened PfModel
  import opened SortedAddresses
  import opened Wire

  /** The requested addresses of a family that the whitelist does not cover. */
  function Wanted(request: Request, whitelist: seq<Network>, family: Family): set<Ip>
    requires request.Replacement?
  {
    Unlisted(IpsOf(if family == V4 then request.ipv4 else request.ipv6), whitelist)
  }

  /** The request is acceptable, the whitelist readable and both tables show nothing but hosts, so that the
      helper begins to write. */
  predicate Begins(t: Tables, request: Request, whitelist: Option<seq<Network>>, endings: Endings) {
    && AcceptableRequest(request) && whitelist.Some? && endings.show4.Done? && endings.show6.Done?
    && (forall n | n in t.v4 :: IsHostEntry(n, V4)) && (forall n | n in t.v6 :: IsHostEntry(n, V6))
  }

  /** Success leaves each table exactly the request without the whitelist; a completed rollback leaves
      each exactly its prior contents without the whitelist; any failure before the first write leaves
      both untouched. Every answer has its exact case. */
  lemma ReplacementIsAllOrPrior(t: Tables, request: Request, whitelist: Option<seq<Network>>, endings: Endings, family: Family)
    ensures var (after, r) := Replace(t, request, whitelist, endings);
            && (r.Replaced? ==> request.Replacement? && whitelist.Some?
                                && after.Of(family) == Hosts(Wanted(request, whitelist.value, family)))
            && (r == Failed(true) ==> whitelist.Some? && after.Of(family) == Safe(t.Of(family), whitelist.value))
            && (r.BadRequest? || r.NoWhitelist? || r.NotShown? ==> after == t)
            && (r.BadRequest? <==> !AcceptableRequest(request))
            && (r.NoWhitelist? <==> AcceptableRequest(request) && whitelist.None?)
            && (r.Failed? <==> Begins(t, request, whitelist, endings) && !(endings.write4.Done? && endings.write6.Done?))
            && (r.Failed? ==> (r.rolledBack <==> endings.undo4.Done? && endings.undo6.Done?))
            && (r.Replaced? ==> r.applied4 == |Wanted(request, whitelist.value, V4)|
                                && r.applied6 == |Wanted(request, whitelist.value, V6)|)
            && (r.Replaced? <==>
                 && AcceptableRequest(request) && whitelist.Some?
                 && (forall n | n in t.v4 :: IsHostEntry(n, V4)) && (forall n | n in t.v6 :: IsHostEntry(n, V6))
                 && endings.show4.Done? && endings.show6.Done? && endings.write4.Done? && endings.write6.Done?)
  {
  }

  /** Some write to the family's table acts: its own, which for IPv6 needs a good write before it, or, if
      either failed, the one that undoes it. */
  predicate Wrote(t: Tables, request: Request, whitelist: Option<seq<Network>>, endings: Endings, family: Family) {
    && Begins(t, request, whitelist, endings)
    && var failed := !endings.write4.Done? || !endings.write6.Done?;
       if family == V4 then !endings.write4.FailedBefore? || (failed && !endings.undo4.FailedBefore?)
       else (endings.write4.Done? && !endings.write6.FailedBefore?) || (failed && !endings.undo6.FailedBefore?)
  }

  lemma HostsCarryTheirAddress(ips: set<Ip>)
    ensures forall n | n in Hosts(ips) :: AddressOf(n) in ips
  {
  }

  /** Every table ends as its prior contents, or those without the whitelist, or the wanted addresses. */
  lemma EachTableIsOneOfThree(t: Tables, request: Request, whitelist: Option<seq<Network>>, endings: Endings, family: Family)
    ensures var after := Replace(t, request, whitelist, endings).0.Of(family);
            if Wrote(t, request, whitelist, endings, family)
            then request.Replacement? && whitelist.Some?
                 && (after == Hosts(Wanted(request, whitelist.value, family)) || after == Safe(t.Of(family), whitelist.value))
            else after == t.Of(family)
  {
    hide Hosts;
    hide Unlisted;
    hide Safe;
    hide IpsOf;
  }

  /** No command sequence puts a whitelisted address into a table: one is present afterwards exactly if
      it was there before and no write to that table acted. */
  lemma WhitelistedOnlyIfUntouched(
    t: Tables, request: Request, whitelist: seq<Network>, endings: Endings, family: Family, n: Network)
    requires Listed(whitelist, AddressOf(n))
    ensures n in Replace(t, request, Some(whitelist), endings).0.Of(family) <==>
      n in t.Of(family) && !Wrote(t, request, Some(whitelist), endings, family)
  {
    hide Replace;
    hide Listed;
    EachTableIsOneOfThree(t, request, Some(whitelist), endings, family);
    if request.Replacement? {
      HostsCarryTheirAddress(Wanted(request, whitelist, family));
    }
  }

  // ---------------------------------------------------------------- digests

  /** Two digests agree exactly if the sets do. */
  lemma DigestsAgreeIff(a: set<Ip>, b: set<Ip>)
    ensures DigestOf(a) == DigestOf(b) <==> a == b
  {
    hide SortedIps;
    if DigestOf(a) == DigestOf(b) {
      forall ip
        ensures ip in a <==> ip in b
      {
        InDigest(a, ip);
        InDigest(b, ip);
      }
    }
  }

  lemma InDigest(a: set<Ip>, ip: Ip)
    ensures ip in DigestOf(a) <==> ip in a
  {
    hide SortedIps;
    assert ip in DigestOf(a) <==> ip in SortedIps(a, V4) || ip in SortedIps(a, V6);
    assert ip.family == V4 || ip.family == V6;
  }

  // ---------------------------------------------------------------- exclusion on sorted lists

  lemma {:induction false} ExcludeFromSorted(index: NetworkIndex, networks: seq<Network>, ips: seq<Ip>)
    requires index.WellFormed() && index.Represents(networks)
    requires forall i, j | 0 <= i < j < |ips| :: ips[i].value < ips[j].value
    ensures var r := index.Exclude(ips);
            && (forall ip :: ip in r <==> ip in ips && !Listed(networks, ip))
            && (forall i, j | 0 <= i < j < |r| :: r[i].value < r[j].value)
            && |r| <= |ips|
  {
    hide NetworkIndex.Represents;
    hide NetworkIndex.WellFormed;
    if ips != [] {
      IndexRefinesPrefixSearch(index, networks, ips[0]);
      ExcludeFromSorted(index, networks, ips[1..]);
      assert ips == [ips[0]] + ips[1..];
      var rest := index.Exclude(ips[1..]);
      forall i | 0 <= i < |rest|
        ensures ips[0].value < rest[i].value
      {
        assert rest[i] in ips[1..];
      }
    }
  }

  /** Excluding from the sorted list gives the sorted list of the difference. */
  lemma ExcludeIsSortedDifference(index: NetworkIndex, networks: seq<Network>, ips: set<Ip>, family: Family)
    requires index.WellFormed() && index.Represents(networks)
    ensures index.Exclude(SortedIps(ips, family)) == SortedIps(Unlisted(ips, networks), family)
  {
    hide SortedIps;
    hide NetworkIndex.Exclude;
    ExcludeFromSorted(index, networks, SortedIps(ips, family));
    SortedListsAgree(index.Exclude(SortedIps(ips, family)), SortedIps(Unlisted(ips, networks), family), family);
  }
}
