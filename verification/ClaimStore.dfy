/** The receiver's store as the object that the request threads share (src/f2bguard/store.py). A
    transaction works statement by statement and puts every table back when one of them fails. */
module ClaimStores {
  import L = ReceiverLaws
  import M = ReceiverModel
  import O = ReceiverOutcomes
  import opened ReceiverModel
  import opened SortedAddresses
  import opened Wire

  /** The single row that records what was last enforced; a digest is the list it covers. */
  datatype Record = Record(
    desired: Option<seq<Ip>>, applied: Option<seq<Ip>>, ipv4: nat, ipv6: nat,
    lastAttempt: Option<real>, lastSuccess: Option<real>, lastError: Option<string>)

  /** The addresses one client contributes. */
  function EffectiveOf(claims: map<ClaimId, ClaimRow>, client: Client, now: real): set<Ip> {
    EffectiveIps(ClientRows(claims, client), now)
  }

  /** The history row of each event of a batch, if there is one. */
  predicate IsLookup(t: Tables, client: Client, batch: seq<Event>, existing: seq<Option<EventRow>>) {
    && |existing| == |batch|
    && forall i | 0 <= i < |batch| ::
         existing[i] == if Known(t, client, batch[i]) then Some(t.events[EntryId(client, batch[i].id)]) else None
  }

  predicate IsAscending(ips: seq<Ip>) {
    forall i, j | 0 <= i < j < |ips| :: ips[i].value < ips[j].value
  }

  class ClaimStore {
    var lastSeq: map<Client, nat>
    var claims: map<ClaimId, ClaimRow>
    var events: map<EntryId, EventRow>
    var snapshots: map<EntryId, SnapshotRow>
    var record: Record
    const caps: Caps
    const historyDays: real

    function State(): Tables
      reads this`lastSeq, this`claims, this`events, this`snapshots
    {
      Tables(lastSeq, claims, events, snapshots)
    }

    constructor (disk: Tables, record: Record, historyDays: real)
      ensures State() == disk && this.record == record && caps == SOURCE_CAPS && this.historyDays == historyDays
    {
      lastSeq, claims, events, snapshots := disk.lastSeq, disk.claims, disk.events, disk.snapshots;
      this.record, this.historyDays := record, historyDays;
      caps := SOURCE_CAPS;
    }

    method Rollback(saved: Tables)
      modifies this`lastSeq, this`claims, this`events, this`snapshots
      ensures State() == saved
    {
      lastSeq, claims, events, snapshots := saved.lastSeq, saved.claims, saved.events, saved.snapshots;
    }

    method Register(client: Client) returns (last: nat)
      modifies this`lastSeq
      ensures State() == Registered(old(State()), client) && client in lastSeq && last == lastSeq[client]
    {
      if client !in lastSeq {
        lastSeq := lastSeq[client := 0];
      }
      last := lastSeq[client];
    }

    // -------------------------------------------------------------- events

    method WriteClaim(client: Client, e: Event) returns (ok: bool)
      modifies this`claims
      ensures ok == SameIpIfHeld(old(claims), ClaimId(client, e.jail, e.banId), e.ip)
      ensures claims == if ok then Effect(old(claims), client, e) else old(claims)
    {
      var id := ClaimId(client, e.jail, e.banId);
      if id in claims && claims[id].ip != e.ip {
        return false;
      }
      match e.op {
        case Ban => claims := claims[id := RowOfEvent(e)];
        case Unban =>
          if id in claims {
            claims := claims - {id};
          }
      }
      ok := true;
    }

    /** One event of a batch: its claim statement, then its history row. */
    method ApplyOne(client: Client, e: Event, now: real) returns (failure: Option<Refusal>)
      modifies this`claims, this`events
      ensures match M.ApplyOne(old(State()), client, e, now)
              case Next(t) => failure == None && State() == t
              case Stop(why) => failure == Some(why)
    {
      var ok := WriteClaim(client, e);
      if !ok {
        return Some(Conflict);
      }
      if EventKeyTaken(State(), client, e) {
        return Some(Integrity);
      }
      events := events[EntryId(client, e.id) := EventRow(e, now)];
      failure := None;
    }

    method ApplyEach(client: Client, batch: seq<Event>, now: real) returns (failure: Option<Refusal>)
      modifies this`claims, this`events
      ensures match M.ApplyEach(old(State()), client, batch, now)
              case Next(t) => failure == None && State() == t
              case Stop(why) => failure == Some(why)
    {
      var i := 0;
      while i < |batch|
        invariant 0 <= i <= |batch|
        invariant M.ApplyEach(old(State()), client, batch, now) == M.ApplyEach(State(), client, batch[i..], now)
      {
        assert batch[i..][0] == batch[i] && batch[i..][1..] == batch[i + 1..];
        failure := ApplyOne(client, batch[i], now);
        if failure.Some? {
          return;
        }
        i := i + 1;
      }
      failure := None;
    }

    method Lookup(client: Client, batch: seq<Event>) returns (existing: seq<Option<EventRow>>)
      ensures IsLookup(State(), client, batch, existing)
    {
      existing := [];
      var i := 0;
      while i < |batch|
        invariant 0 <= i == |existing| <= |batch|
        invariant IsLookup(State(), client, batch[..i], existing)
      {
        var key := EntryId(client, batch[i].id);
        existing := existing + [if key in events then Some(events[key]) else None];
        i := i + 1;
      }
      assert batch[..i] == batch;
    }

    /** Whether some event reuses an identifier that the history holds with other content. */
    method FindMismatch(client: Client, batch: seq<Event>, existing: seq<Option<EventRow>>) returns (found: bool)
      requires IsLookup(State(), client, batch, existing)
      ensures found <==> exists e | e in batch :: Mismatched(State(), client, e)
    {
      var i := 0;
      while i < |batch|
        invariant 0 <= i <= |batch|
        invariant forall j | 0 <= j < i :: !Mismatched(State(), client, batch[j])
      {
        if existing[i].Some? && existing[i].value.event != batch[i] {
          assert Mismatched(State(), client, batch[i]) && batch[i] in batch;
          return true;
        }
        i := i + 1;
      }
      found := false;
    }

    /** A batch of events: all of it or nothing of it. */
    method ApplyEvents(client: Client, batch: seq<Event>, limit: int, now: real) returns (r: Outcome)
      modifies this`lastSeq, this`claims, this`events, this`snapshots
      ensures (State(), r) == M.ApplyEvents(old(State()), client, batch, limit, caps, now)
      ensures r.Applied? ==> O.BatchRows(old(claims), claims, client, batch)
    {
      hide O.BatchRows;
      if batch == [] || !Rising(batch) {
        return Refused(Malformed);
      }
      var saved := State();
      var last := Register(client);
      var existing := Lookup(client, batch);
      var mismatch := FindMismatch(client, batch, existing);
      ghost var registered := State();
      KnownByIndex(registered, client, batch, existing);
      if mismatch {
        Rollback(saved);
        return Refused(Conflict);
      }
      if batch[0].number <= last {
        if batch[|batch| - 1].number > last {
          Rollback(saved);
          return Refused(Conflict);
        }
        if forall i | 0 <= i < |existing| :: existing[i].Some? {
          return Duplicate(last);
        }
        return Stale(last);
      }
      if exists i | 0 <= i < |existing| :: existing[i].Some? {
        Rollback(saved);
        return Refused(Conflict);
      }
      var failure := ApplyEach(client, batch, now);
      if failure.Some? {
        Rollback(saved);
        return Refused(failure.value);
      }
      r := Finish(saved, client, batch[|batch| - 1].number, limit);
      if r.Applied? {
        O.AppliedBatchRows(saved, client, batch, limit, caps, now);
      }
    }

    /** The limits, the stored number and the trimmed history. */
    method Finish(saved: Tables, client: Client, number: nat, limit: int) returns (r: Outcome)
      modifies this`lastSeq, this`claims, this`events, this`snapshots
      ensures (State(), r) == Commit(saved, old(State()), client, number, limit, caps)
    {
      if |ClientRows(claims, client)| > limit {
        Rollback(saved);
        return Refused(ClientLimit);
      }
      if |claims| > caps.total {
        Rollback(saved);
        return Refused(GlobalLimit);
      }
      lastSeq := lastSeq[client := number];
      events := TrimEvents(events, client, caps.events);
      r := Applied(number);
    }

    // -------------------------------------------------------------- snapshots

    method FindRebinding(client: Client, list: seq<Claim>) returns (found: bool)
      ensures found <==> Rebinds(State(), client, list)
    {
      var i := 0;
      while i < |list|
        invariant 0 <= i <= |list|
        invariant forall c | c in list[..i] :: SameIpIfHeld(claims, ClaimId(client, c.jail, c.banId), c.ip)
      {
        var id := ClaimId(client, list[i].jail, list[i].banId);
        if id in claims && claims[id].ip != list[i].ip {
          assert list[i] in list;
          return true;
        }
        i := i + 1;
      }
      assert list[..i] == list;
      found := false;
    }

    /** Deletes the client's rows and inserts those of the list, under the primary key. */
    method ReplaceRows(client: Client, list: seq<Claim>) returns (ok: bool)
      modifies this`claims
      ensures ok == DistinctIdentities(list)
      ensures ok ==> claims == OtherRows(old(claims), client) + RowsOfClaims(client, list)
    {
      claims := OtherRows(claims, client);
      var i := 0;
      while i < |list|
        invariant 0 <= i <= |list|
        invariant claims == OtherRows(old(claims), client) + RowsOfClaims(client, list[..i])
        invariant DistinctIdentities(list[..i])
      {
        var c := list[i];
        var id := ClaimId(client, c.jail, c.banId);
        assert list[..i + 1][..i] == list[..i];
        InsertedExactly(client, list, i);
        if id in claims {
          return false;
        }
        claims := claims[id := RowOfClaim(c)];
        i := i + 1;
      }
      assert list[..i] == list;
      ok := true;
    }

    /** A snapshot: replaces all claims of its client or changes nothing. */
    method ApplySnapshot(client: Client, id: Uuid, number: nat, list: seq<Claim>, limit: int, now: real)
      returns (r: Outcome)
      modifies this`lastSeq, this`claims, this`events, this`snapshots
      ensures (State(), r) == M.ApplySnapshot(old(State()), client, id, number, list, limit, caps, now)
      ensures r.Applied? ==> O.SnapshotRows(old(claims), claims, client, list)
    {
      hide O.SnapshotRows;
      hide OtherRows;
      hide RowsOfClaims;
      hide TrimSnapshots;
      hide DistinctIdentities;
      if |list| > limit {
        return Refused(ClientLimit);
      }
      var saved := State();
      var last := Register(client);
      var key := EntryId(client, id);
      var prior := key in snapshots;
      if prior && (snapshots[key].number != number || snapshots[key].claims != list) {
        Rollback(saved);
        return Refused(Conflict);
      }
      if number <= last {
        return if prior then Duplicate(last) else Stale(last);
      }
      var rebinds := FindRebinding(client, list);
      if rebinds {
        Rollback(saved);
        return Refused(Conflict);
      }
      r := WriteSnapshot(saved, client, id, SnapshotRow(number, list, now));
      if r.Applied? {
        O.AppliedSnapshotRows(saved, client, id, number, list, limit, caps, now);
      }
    }

    /** The statements of a snapshot once it has been admitted. */
    method WriteSnapshot(saved: Tables, client: Client, id: Uuid, entry: SnapshotRow) returns (r: Outcome)
      requires State() == Registered(saved, client)
      modifies this`lastSeq, this`claims, this`events, this`snapshots
      ensures var rows := OtherRows(saved.claims, client) + RowsOfClaims(client, entry.claims);
              (State(), r) ==
                if !DistinctIdentities(entry.claims) then (saved, Refused(Integrity))
                else if |rows| > caps.total then (saved, Refused(GlobalLimit))
                else if SnapshotKeyTaken(saved, client, id, entry.number) then (saved, Refused(Integrity))
                else (Replaced(saved, client, rows, id, entry, caps), Applied(entry.number))
    {
      hide OtherRows;
      hide RowsOfClaims;
      hide TrimSnapshots;
      hide DistinctIdentities;
      hide SnapshotKeyTaken;
      hide Registered;
      RegisteredParts(saved, client, entry.number);
      var ok := ReplaceRows(client, entry.claims);
      if !ok {
        Rollback(saved);
        return Refused(Integrity);
      }
      if |claims| > caps.total {
        Rollback(saved);
        return Refused(GlobalLimit);
      }
      KeyTakenReadsSnapshots(State(), saved, client, id, entry.number);
      if SnapshotKeyTaken(State(), client, id, entry.number) {
        Rollback(saved);
        return Refused(Integrity);
      }
      snapshots := snapshots[EntryId(client, id) := entry];
      lastSeq := lastSeq[client := entry.number];
      snapshots := TrimSnapshots(snapshots, client, caps.snapshots);
      r := Applied(entry.number);
    }

    // -------------------------------------------------------------- reading

    /** Splits a set of addresses by family and sorts each part. */
    static method SplitAndSort(ips: set<Ip>) returns (v4: seq<Ip>, v6: seq<Ip>)
      ensures v4 == SortedIps(ips, V4) && v6 == SortedIps(ips, V6)
    {
      var four, six: set<Ip>, rest := {}, {}, ips;
      while rest != {}
        invariant rest <= ips
        invariant forall ip :: ip in four <==> ip in ips - rest && ip.family == V4
        invariant forall ip :: ip in six <==> ip in ips - rest && ip.family == V6
        decreases |rest|
      {
        var ip :| ip in rest;
        if ip.family == V4 { four := four + {ip}; } else { six := six + {ip}; }
        rest := rest - {ip};
      }
      SameFamilySorts(four, ips, V4);
      SameFamilySorts(six, ips, V6);
      v4, v6 := SortedIps(four, V4), SortedIps(six, V6);
    }

    /** The addresses in force, over all clients. */
    method Effective(now: real) returns (v4: seq<Ip>, v6: seq<Ip>)
      ensures v4 == SortedIps(EffectiveIps(claims, now), V4)
      ensures v6 == SortedIps(EffectiveIps(claims, now), V6)
      ensures IsAscending(v4) && IsAscending(v6)
      ensures forall ip :: ip in v4 <==> ip.family == V4 && O.IsClaimed(claims, ip, now)
      ensures forall ip :: ip in v6 <==> ip.family == V6 && O.IsClaimed(claims, ip, now)
    {
      hide EffectiveIps;
      hide O.IsClaimed;
      O.EffectiveIffClaimed(claims, now);
      v4, v6 := SplitAndSort(EffectiveIps(claims, now));
    }

    /** The addresses that one client holds in force. */
    method ClientEffective(client: Client, now: real) returns (v4: seq<Ip>, v6: seq<Ip>)
      ensures v4 == SortedIps(EffectiveOf(claims, client, now), V4)
      ensures v6 == SortedIps(EffectiveOf(claims, client, now), V6)
      ensures IsAscending(v4) && IsAscending(v6)
      ensures forall ip :: ip in v4 <==> ip.family == V4 && O.IsClaimedBy(claims, client, ip, now)
      ensures forall ip :: ip in v6 <==> ip.family == V6 && O.IsClaimedBy(claims, client, ip, now)
    {
      hide EffectiveOf;
      hide O.IsClaimedBy;
      EffectiveOfIffClaimed(claims, client, now);
      v4, v6 := SplitAndSort(EffectiveOf(claims, client, now));
    }

    // -------------------------------------------------------------- records and history

    method RecordAttempt(desired: seq<Ip>, now: real)
      modifies this`record
      ensures record == old(record).(desired := Some(desired), lastAttempt := Some(now))
    {
      record := record.(desired := Some(desired), lastAttempt := Some(now));
    }

    method RecordSuccess(desired: seq<Ip>, applied: Option<seq<Ip>>, ipv4: nat, ipv6: nat, now: real)
      modifies this`record
      ensures record == Record(Some(desired), applied, ipv4, ipv6, Some(now), Some(now), None)
    {
      record := Record(Some(desired), applied, ipv4, ipv6, Some(now), Some(now), None);
    }

    method RecordFailure(desired: seq<Ip>, error: string, now: real)
      modifies this`record
      ensures record == old(record).(desired := Some(desired), lastAttempt := Some(now),
                                     lastError := Some(if |error| <= 1024 then error else error[..1024]))
    {
      record := record.(desired := Some(desired), lastAttempt := Some(now),
                        lastError := Some(if |error| <= 1024 then error else error[..1024]));
    }

    /** Deletes the history rows that are older than the configured number of days. */
    method PruneHistory(now: real) returns (deleted: nat)
      modifies this`events, this`snapshots
      ensures KeepsRecent(old(State()), State(), now - historyDays * 86400.0)
      ensures deleted == (|old(events)| - |events|) + (|old(snapshots)| - |snapshots|)
    {
      hide KeepsRecent;
      deleted := DeleteBefore(now - historyDays * 86400.0);
    }

    method DeleteBefore(boundary: real) returns (deleted: nat)
      modifies this`events, this`snapshots
      ensures var t := old(State()); State() == Prune(t, OldEvents(t, boundary), OldSnapshots(t, boundary))
      ensures KeepsRecent(old(State()), State(), boundary)
      ensures deleted == (|old(events)| - |events|) + (|old(snapshots)| - |snapshots|)
    {
      hide OldEvents;
      hide OldSnapshots;
      hide KeepsRecent;
      PruneKeepsRecent(State(), boundary);
      var first, second := OldEvents(State(), boundary), OldSnapshots(State(), boundary);
      events := events - first;
      snapshots := snapshots - second;
      deleted := |first| + |second|;
    }
  }

  lemma EffectiveOfIffClaimed(claims: map<ClaimId, ClaimRow>, client: Client, now: real)
    ensures forall ip :: ip in EffectiveOf(claims, client, now) <==> O.IsClaimedBy(claims, client, ip, now)
  {
    var own := ClientRows(claims, client);
    O.EffectiveIffClaimed(own, now);
    forall ip
      ensures O.IsClaimed(own, ip, now) <==> O.IsClaimedBy(claims, client, ip, now)
    {
      if id :| id in own && own[id].ip == ip && O.Counts(own[id].permanent, own[id].expiresAt, now) {
        assert id in claims && id.client == client;
      }
      if id :| id in claims && id.client == client && claims[id].ip == ip
               && O.Counts(claims[id].permanent, claims[id].expiresAt, now)
      {
        assert id in own;
      }
    }
  }

  /** The history rows received at the boundary or later stay as they are, and all others go. */
  ghost predicate KeepsRecent(before: Tables, after: Tables, boundary: real) {
    && after.lastSeq == before.lastSeq && after.claims == before.claims
    && (forall k :: k in after.events <==> k in before.events && before.events[k].receivedAt >= boundary)
    && (forall k | k in after.events :: after.events[k] == before.events[k])
    && (forall k :: k in after.snapshots <==> k in before.snapshots && before.snapshots[k].receivedAt >= boundary)
    && (forall k | k in after.snapshots :: after.snapshots[k] == before.snapshots[k])
  }

  lemma PruneKeepsRecent(t: Tables, boundary: real)
    ensures var after := Prune(t, OldEvents(t, boundary), OldSnapshots(t, boundary));
            && KeepsRecent(t, after, boundary)
            && |OldEvents(t, boundary)| + |OldSnapshots(t, boundary)| ==
                 (|t.events| - |after.events|) + (|t.snapshots| - |after.snapshots|)
  {
    RemovedCount(t.events, OldEvents(t, boundary));
    RemovedCount(t.snapshots, OldSnapshots(t, boundary));
  }

  lemma RemovedCount<K, V>(rows: map<K, V>, gone: set<K>)
    requires gone <= rows.Keys
    ensures |gone| == |rows| - |rows - gone|
  {
    assert rows.Keys == (rows - gone).Keys + gone && (rows - gone).Keys !! gone;
    assert |rows.Keys| == |rows| && |(rows - gone).Keys| == |rows - gone|;
  }

  lemma KeyTakenReadsSnapshots(t: Tables, u: Tables, client: Client, id: Uuid, number: nat)
    requires t.snapshots == u.snapshots
    ensures SnapshotKeyTaken(t, client, id, number) == SnapshotKeyTaken(u, client, id, number)
  {
  }

  lemma RegisteredParts(t: Tables, client: Client, number: nat)
    ensures Registered(t, client) == t.(lastSeq := Registered(t, client).lastSeq)
    ensures Registered(t, client).lastSeq[client := number] == t.lastSeq[client := number]
  {
  }

  lemma KnownByIndex(t: Tables, client: Client, batch: seq<Event>, existing: seq<Option<EventRow>>)
    requires IsLookup(t, client, batch, existing)
    ensures (forall e | e in batch :: Known(t, client, e)) <==> forall i | 0 <= i < |existing| :: existing[i].Some?
    ensures (exists e | e in batch :: Known(t, client, e)) <==> exists i | 0 <= i < |existing| :: existing[i].Some?
  {
    if i :| 0 <= i < |existing| && existing[i].Some? {
      assert batch[i] in batch;
    }
    if i :| 0 <= i < |existing| && existing[i].None? {
      assert batch[i] in batch;
    }
  }

  /** The next row violates the primary key exactly if its identity occurred before. */
  lemma InsertedExactly(client: Client, list: seq<Claim>, i: nat)
    requires i < |list| && DistinctIdentities(list[..i])
    ensures var id := ClaimId(client, list[i].jail, list[i].banId);
            id in RowsOfClaims(client, list[..i]) <==> !DistinctIdentities(list[..i + 1])
    ensures !DistinctIdentities(list[..i + 1]) ==> !DistinctIdentities(list)
  {
    L.RowsOfClaimsAreTheClients(client, list[..i]);
    var id := ClaimId(client, list[i].jail, list[i].banId);
    var longer := list[..i + 1];
    if id in RowsOfClaims(client, list[..i]) {
      var c :| c in list[..i] && id == ClaimId(client, c.jail, c.banId);
      var j :| 0 <= j < i && list[j] == c;
      assert longer[j] == c && longer[i] == list[i];
    } else {
      forall j, k | 0 <= j < k < |longer|
        ensures (longer[j].jail, longer[j].banId) != (longer[k].jail, longer[k].banId)
      {
        assert k < i ==> longer[k] == list[..i][k] && longer[j] == list[..i][j];
        assert longer[j] in list[..i];
      }
    }
    if DistinctIdentities(list) {
      assert forall j, k | 0 <= j < k < |longer| :: longer[j] == list[j] && longer[k] == list[k];
    }
  }
}
