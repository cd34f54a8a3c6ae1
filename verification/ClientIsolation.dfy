/** Clients share the tables but not each other's fate, except through the global claim limit. */
module ClientIsolation {
  import opened ReceiverLaws
  import opened ReceiverModel
  import opened ReceiverRuns
  import opened Wire

  function NumberOf(lastSeq: map<Client, nat>, client: Client): map<Client, nat> {
    map c | c in lastSeq && c == client :: lastSeq[c]
  }

  lemma NumberUpdated(lastSeq: map<Client, nat>, writer: Client, number: nat, client: Client)
    ensures NumberOf(lastSeq[writer := number], client) ==
      if writer == client then NumberOf(lastSeq, client)[client := number] else NumberOf(lastSeq, client)
  {
  }

  lemma SnapshotShareUpdated(rows: map<EntryId, SnapshotRow>, k: EntryId, row: SnapshotRow, cap: nat, client: Client)
    ensures Share(TrimSnapshots(rows[k := row], k.client, cap), client) ==
      if k.client == client then TrimSnapshots(Share(rows, client)[k := row], client, cap) else Share(rows, client)
  {
    TrimmedSnapshotShare(rows[k := row], k.client, cap, client);
    if k.client == client {
      assert Share(rows[k := row], client) == Share(rows, client)[k := row];
    } else {
      assert Share(rows[k := row], client) == Share(rows, client);
    }
  }

  function Share<V>(rows: map<EntryId, V>, client: Client): map<EntryId, V> {
    map k | k in rows && k.client == client :: rows[k]
  }

  /** The tables with every row of other clients deleted. */
  function Only(t: Tables, client: Client): Tables {
    Tables(NumberOf(t.lastSeq, client), ClientRows(t.claims, client),
           Share(t.events, client), Share(t.snapshots, client))
  }

  // ---------------------------------------------------------------- requests of the client itself

  lemma TrimmedShare(events: map<EntryId, EventRow>, trimmed: Client, cap: nat, client: Client)
    ensures Share(TrimEvents(events, client, cap), client) == TrimEvents(Share(events, client), client, cap)
    ensures trimmed != client ==> Share(TrimEvents(events, trimmed, cap), client) == Share(events, client)
  {
    var own := Share(events, client);
    forall k | k in own
      ensures (set o | o in own && o.client == client && NewerEvent(own[o], own[k])) ==
              (set o | o in events && o.client == client && NewerEvent(events[o], events[k]))
    {
    }
  }

  lemma TrimmedSnapshotShare(rows: map<EntryId, SnapshotRow>, trimmed: Client, cap: nat, client: Client)
    ensures Share(TrimSnapshots(rows, client, cap), client) == TrimSnapshots(Share(rows, client), client, cap)
    ensures trimmed != client ==> Share(TrimSnapshots(rows, trimmed, cap), client) == Share(rows, client)
  {
    var own := Share(rows, client);
    forall k | k in own
      ensures (set o | o in own && o.client == client && NewerSnapshot(own[o], own[k])) ==
              (set o | o in rows && o.client == client && NewerSnapshot(rows[o], rows[k]))
    {
    }
  }

  function OnlyStep(s: Step, client: Client): Step {
    if s.Stop? then s else Next(Only(s.tables, client))
  }

  lemma OneEventOnShare(t: Tables, client: Client, e: Event, now: real)
    ensures ApplyOne(Only(t, client), client, e, now) == OnlyStep(ApplyOne(t, client, e, now), client)
  {
    var own := Only(t, client);
    EffectOnShares(t.claims, client, e, client);
    assert EventKeyTaken(own, client, e) <==> EventKeyTaken(t, client, e) by {
      if k :| k in t.events && k.client == client && t.events[k].event.number == e.number {
        assert k in own.events;
      }
    }
    assert Share(t.events[EntryId(client, e.id) := EventRow(e, now)], client)
        == own.events[EntryId(client, e.id) := EventRow(e, now)];
  }

  lemma {:induction false} BatchOnShare(t: Tables, client: Client, batch: seq<Event>, now: real)
    ensures ApplyEach(Only(t, client), client, batch, now) == OnlyStep(ApplyEach(t, client, batch, now), client)
    decreases |batch|
  {
    hide ApplyOne;
    hide Only;
    if batch != [] {
      OneEventOnShare(t, client, batch[0], now);
      var s := ApplyOne(t, client, batch[0], now);
      if s.Next? {
        BatchOnShare(s.tables, client, batch[1..], now);
      }
    }
  }

  lemma {:induction false} FewerRows<K, V>(small: map<K, V>, large: map<K, V>)
    requires small.Keys <= large.Keys
    ensures |small| <= |large|
  {
    if small.Keys != {} {
      var k :| k in small.Keys;
      FewerRows(small - {k}, large - {k});
      assert small.Keys == (small - {k}).Keys + {k};
      assert large.Keys == (large - {k}).Keys + {k};
    }
  }

  lemma ShareOfShare(claims: map<ClaimId, ClaimRow>, client: Client)
    ensures ClientRows(ClientRows(claims, client), client) == ClientRows(claims, client)
    ensures |ClientRows(claims, client)| <= |claims|
  {
    FewerRows(ClientRows(claims, client), claims);
  }

  lemma CommitOnShare(t: Tables, t1: Tables, client: Client, number: nat, limit: int, caps: Caps)
    requires Commit(t, t1, client, number, limit, caps).1 != Refused(GlobalLimit)
    ensures var (after, r) := Commit(t, t1, client, number, limit, caps);
            Commit(Only(t, client), Only(t1, client), client, number, limit, caps) == (Only(after, client), r)
  {
    ShareOfShare(t1.claims, client);
    TrimmedShare(t1.events, client, caps.events, client);
    var lastSeq := t1.lastSeq[client := number];
    assert Only(t1.(lastSeq := lastSeq), client).lastSeq == Only(t1, client).lastSeq[client := number];
  }

  lemma EventChecksOnShare(t: Tables, client: Client)
    ensures Only(Registered(t, client), client) == Registered(Only(t, client), client)
    ensures LastSeq(Only(t, client), client) == LastSeq(t, client)
    ensures forall e :: Known(Only(t, client), client, e) <==> Known(t, client, e)
    ensures forall e :: Mismatched(Only(t, client), client, e) <==> Mismatched(t, client, e)
  {
    NumberUpdated(t.lastSeq, client, LastSeq(t, client), client);
  }

  lemma EventsOnShare(t: Tables, client: Client, batch: seq<Event>, limit: int, caps: Caps, now: real)
    requires ApplyEvents(t, client, batch, limit, caps, now).1 != Refused(GlobalLimit)
    ensures var (after, r) := ApplyEvents(t, client, batch, limit, caps, now);
            ApplyEvents(Only(t, client), client, batch, limit, caps, now) == (Only(after, client), r)
  {
    hide Commit;
    hide ApplyEach;
    hide Only;
    hide Known;
    hide Mismatched;
    EventChecksOnShare(t, client);
    BatchOnShare(Registered(t, client), client, batch, now);
    var s := ApplyEach(Registered(t, client), client, batch, now);
    if batch != [] && s.Next? {
      var number := batch[|batch| - 1].number;
      if Commit(t, s.tables, client, number, limit, caps).1 != Refused(GlobalLimit) {
        CommitOnShare(t, s.tables, client, number, limit, caps);
      }
    }
  }

  lemma ReplacedOnShare(t: Tables, client: Client, list: seq<Claim>, id: Uuid, entry: SnapshotRow, caps: Caps)
    ensures var own := Only(t, client);
            var rows := OtherRows(t.claims, client) + RowsOfClaims(client, list);
            && OtherRows(own.claims, client) + RowsOfClaims(client, list) == RowsOfClaims(client, list)
            && |RowsOfClaims(client, list)| <= |rows|
            && Only(Replaced(t, client, rows, id, entry, caps), client) ==
                 Replaced(own, client, RowsOfClaims(client, list), id, entry, caps)
  {
    hide TrimSnapshots;
    hide OtherRows;
    hide RowsOfClaims;
    hide ClientRows;
    hide Share;
    hide NumberOf;
    var rows := OtherRows(t.claims, client) + RowsOfClaims(client, list);
    ReplacedShares(t.claims, client, list, client);
    NoOtherRows(t.claims, client);
    ShareOfShare(rows, client);
    SnapshotShareUpdated(t.snapshots, EntryId(client, id), entry, caps.snapshots, client);
    NumberUpdated(t.lastSeq, client, entry.number, client);
  }

  lemma NoOtherRows(claims: map<ClaimId, ClaimRow>, client: Client)
    ensures OtherRows(ClientRows(claims, client), client) == map[]
  {
  }

  lemma SnapshotOnShare(
    t: Tables, client: Client, id: Uuid, number: nat, list: seq<Claim>, limit: int, caps: Caps, now: real)
    requires ApplySnapshot(t, client, id, number, list, limit, caps, now).1 != Refused(GlobalLimit)
    ensures var (after, r) := ApplySnapshot(t, client, id, number, list, limit, caps, now);
            ApplySnapshot(Only(t, client), client, id, number, list, limit, caps, now) == (Only(after, client), r)
  {
    hide Replaced;
    hide RowsOfClaims;
    hide OtherRows;
    hide SnapshotKeyTaken;
    hide Rebinds;
    hide Only;
    hide DistinctIdentities;
    hide Registered;
    hide LastSeq;
    ReplacedOnShare(t, client, list, id, SnapshotRow(number, list, now), caps);
    SnapshotChecksOnShare(t, client, id, number, list);
  }

  lemma SnapshotChecksOnShare(t: Tables, client: Client, id: Uuid, number: nat, list: seq<Claim>)
    ensures var own, key := Only(t, client), EntryId(client, id);
            && Only(Registered(t, client), client) == Registered(own, client)
            && client in Registered(t, client).lastSeq && client in Registered(own, client).lastSeq
            && Registered(own, client).lastSeq[client] == Registered(t, client).lastSeq[client]
            && (key in own.snapshots <==> key in t.snapshots)
            && (key in t.snapshots ==> own.snapshots[key] == t.snapshots[key])
            && (SnapshotKeyTaken(own, client, id, number) <==> SnapshotKeyTaken(t, client, id, number))
            && (Rebinds(own, client, list) <==> Rebinds(t, client, list))
  {
    var own := Only(t, client);
    NumberUpdated(t.lastSeq, client, LastSeq(t, client), client);
    assert SnapshotKeyTaken(own, client, id, number) <==> SnapshotKeyTaken(t, client, id, number) by {
      if k :| k in t.snapshots && k.client == client && t.snapshots[k].number == number {
        assert k in own.snapshots;
      }
    }
  }

  /** A request acts on its client's share as it would if the client were alone, with the same answer,
      unless the global limit refuses it. */
  lemma OwnRequestOnShare(t: Tables, request: Request, caps: Caps, now: real)
    requires Apply(t, request, caps, now).1 != Refused(GlobalLimit)
    ensures var (after, r) := Apply(t, request, caps, now);
            Apply(Only(t, request.client), request, caps, now) == (Only(after, request.client), r)
  {
    match request
    case Events(client, batch, limit) => EventsOnShare(t, client, batch, limit, caps, now);
    case Replace(client, id, number, list, limit) => SnapshotOnShare(t, client, id, number, list, limit, caps, now);
  }

  // ---------------------------------------------------------------- requests of other clients

  lemma {:induction false} OtherBatchOnShare(t: Tables, sender: Client, batch: seq<Event>, now: real, client: Client)
    requires sender != client
    ensures var s := ApplyEach(t, sender, batch, now);
            s.Next? ==> Only(s.tables, client) == Only(t, client)
    decreases |batch|
  {
    if batch != [] {
      var s := ApplyOne(t, sender, batch[0], now);
      if s.Next? {
        EffectOnShares(t.claims, sender, batch[0], client);
        assert Only(s.tables, client) == Only(t, client);
        OtherBatchOnShare(s.tables, sender, batch[1..], now, client);
      }
    }
  }

  lemma OtherRequestOnShare(t: Tables, request: Request, caps: Caps, now: real, client: Client)
    requires request.client != client
    ensures Only(Apply(t, request, caps, now).0, client) == Only(t, client)
  {
    hide Apply;
    NotAppliedChangesNothing(t, request, caps, now);
    if Apply(t, request, caps, now).1.Applied? {
      OtherAppliedOnShare(t, request, caps, now, client);
    } else {
      assert Only(Registered(t, request.client), client) == Only(t, client);
    }
  }

  lemma OtherAppliedOnShare(t: Tables, request: Request, caps: Caps, now: real, client: Client)
    requires request.client != client && Apply(t, request, caps, now).1.Applied?
    ensures Only(Apply(t, request, caps, now).0, client) == Only(t, client)
  {
    match request
    case Events(sender, batch, limit) =>
      OtherBatchApplied(t, sender, batch, limit, caps, now, client);
    case Replace(sender, id, number, list, limit) =>
      OtherSnapshotApplied(t, sender, id, number, list, limit, caps, now, client);
  }

  lemma OtherBatchApplied(t: Tables, sender: Client, batch: seq<Event>, limit: int, caps: Caps, now: real, client: Client)
    requires sender != client && ApplyEvents(t, sender, batch, limit, caps, now).1.Applied?
    ensures Only(ApplyEvents(t, sender, batch, limit, caps, now).0, client) == Only(t, client)
  {
    hide ApplyEvents;
    hide ApplyEach;
    hide TrimEvents;
    hide ClientRows;
    hide Share;
    hide NumberOf;
    AppliedBatchForm(t, sender, batch, limit, caps, now);
    NumberUpdated(t.lastSeq, sender, LastSeq(t, sender), client);
    OtherBatchOnShare(Registered(t, sender), sender, batch, now, client);
    var t1 := ApplyEach(Registered(t, sender), sender, batch, now).tables;
    TrimmedShare(t1.events, sender, caps.events, client);
    NumberUpdated(t1.lastSeq, sender, batch[|batch| - 1].number, client);
  }

  lemma OtherSnapshotApplied(
    t: Tables, sender: Client, id: Uuid, number: nat, list: seq<Claim>, limit: int, caps: Caps, now: real,
    client: Client)
    requires sender != client && ApplySnapshot(t, sender, id, number, list, limit, caps, now).1.Applied?
    ensures Only(ApplySnapshot(t, sender, id, number, list, limit, caps, now).0, client) == Only(t, client)
  {
    hide ApplySnapshot;
    hide TrimSnapshots;
    hide ClientRows;
    hide Share;
    hide NumberOf;
    AppliedSnapshotForm(t, sender, id, number, list, limit, caps, now);
    ReplacedShares(t.claims, sender, list, client);
    SnapshotShareUpdated(t.snapshots, EntryId(sender, id), SnapshotRow(number, list, now), caps.snapshots, client);
    NumberUpdated(t.lastSeq, sender, number, client);
  }

  // ---------------------------------------------------------------- runs

  /** The client's own requests and all deletions of history. */
  function ForClient(actions: seq<Action>, client: Client): seq<Action> {
    if actions == [] then []
    else
      var last := actions[|actions| - 1];
      var front := ForClient(actions[..|actions| - 1], client);
      if last.Submit? && last.request.client != client then front else front + [last]
  }

  ghost predicate NeverGloballyRefused(t: Tables, actions: seq<Action>, caps: Caps, client: Client) {
    forall i | 0 <= i < |actions| && actions[i].Submit? && actions[i].request.client == client ::
      Apply(RunAll(t, actions[..i], caps), actions[i].request, caps, actions[i].now).1 != Refused(GlobalLimit)
  }

  /** Deleting all other clients' rows from the end of an interleaved run gives the run of the client
      alone, provided none of its requests meets the global limit. */
  lemma {:induction false} InterleavedRunProjectsToSoloRun(t: Tables, actions: seq<Action>, caps: Caps, client: Client)
    requires NeverGloballyRefused(t, actions, caps, client)
    ensures Only(RunAll(t, actions, caps), client) == RunAll(Only(t, client), ForClient(actions, client), caps)
  {
    hide Apply;
    hide Only;
    if actions != [] {
      var n := |actions| - 1;
      var front, last := actions[..n], actions[n];
      assert NeverGloballyRefused(t, front, caps, client) by {
        assert forall i | 0 <= i < n :: front[..i] == actions[..i];
      }
      InterleavedRunProjectsToSoloRun(t, front, caps, client);
      var before := RunAll(t, front, caps);
      StepProjects(before, last, caps, client);
      var solo := ForClient(front, client);
      if !(last.Submit? && last.request.client != client) {
        assert (solo + [last])[..|solo|] == solo;
      }
    }
  }

  lemma StepProjects(t: Tables, a: Action, caps: Caps, client: Client)
    requires a.Submit? && a.request.client == client ==> Apply(t, a.request, caps, a.now).1 != Refused(GlobalLimit)
    ensures Only(After(t, a, caps), client) ==
      if a.Submit? && a.request.client != client then Only(t, client) else After(Only(t, client), a, caps)
  {
    match a
    case Submit(request, now) =>
      if request.client == client {
        OwnRequestOnShare(t, request, caps, now);
      } else {
        OtherRequestOnShare(t, request, caps, now, client);
      }
    case Forget(events, snapshots) =>
      assert Only(After(t, a, caps), client) == After(Only(t, client), a, caps);
  }

  /** An address that another client claims in force stays in force, whatever this request is. */
  lemma OthersClaimKeepsAddress(t: Tables, request: Request, caps: Caps, now: real, other: Client, ip: Ip, at: real)
    requires other != request.client && ip in EffectiveIps(ClientRows(t.claims, other), at)
    ensures ip in EffectiveIps(Apply(t, request, caps, now).0.claims, at)
  {
    hide Apply;
    ApplyIsExact(t, request, caps, now, other);
    var after := Apply(t, request, caps, now).0;
    var rows := ClientRows(t.claims, other);
    var id :| id in rows && InForce(rows[id], at) && rows[id].ip == ip;
    assert id in ClientRows(after.claims, other);
  }

  /** An address leaves the enforced set only if afterwards no client at all has it in force. */
  lemma AddressLeavesOnlyWhenUnclaimed(t: Tables, request: Request, caps: Caps, now: real, ip: Ip, at: real)
    requires ip in EffectiveIps(t.claims, at) && ip !in EffectiveIps(Apply(t, request, caps, now).0.claims, at)
    ensures forall other | other != request.client :: ip !in EffectiveIps(ClientRows(t.claims, other), at)
    ensures ip in EffectiveIps(ClientRows(t.claims, request.client), at)
    ensures Apply(t, request, caps, now).1.Applied?
  {
    hide Apply;
    NotAppliedChangesNothing(t, request, caps, now);
    forall other | other != request.client
      ensures ip !in EffectiveIps(ClientRows(t.claims, other), at)
    {
      if ip in EffectiveIps(ClientRows(t.claims, other), at) {
        OthersClaimKeepsAddress(t, request, caps, now, other, ip, at);
      }
    }
    var id :| id in t.claims && InForce(t.claims[id], at) && t.claims[id].ip == ip;
    assert id in ClientRows(t.claims, id.client);
    assert ip in EffectiveIps(ClientRows(t.claims, id.client), at);
  }
}
