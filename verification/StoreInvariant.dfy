/** What every reachable state of the receiver's tables satisfies, and why validated requests never
    violate a uniqueness constraint. */
module StoreInvariant {
  import opened ReceiverLaws
  import opened ReceiverModel
  import opened Wire

  // ---------------------------------------------------------------- history

  ghost predicate EventsOk(events: map<EntryId, EventRow>, lastSeq: map<Client, nat>) {
    && (forall k | k in events ::
          k.client in lastSeq && 0 < events[k].event.number <= lastSeq[k.client] && events[k].event.id == k.id)
    && (forall k, l | k in events && l in events && k.client == l.client ::
          events[k].event.number == events[l].event.number ==> k == l)
  }

  ghost predicate SnapshotsOk(snapshots: map<EntryId, SnapshotRow>, lastSeq: map<Client, nat>) {
    && (forall k | k in snapshots :: k.client in lastSeq && 0 < snapshots[k].number <= lastSeq[k.client])
    && (forall k, l | k in snapshots && l in snapshots && k.client == l.client ::
          snapshots[k].number == snapshots[l].number ==> k == l)
  }

  /** Stored history numbers never exceed the client's sequence number and never repeat. */
  ghost predicate HistoryOk(t: Tables) {
    EventsOk(t.events, t.lastSeq) && SnapshotsOk(t.snapshots, t.lastSeq)
  }

  ghost predicate ClaimsOk(claims: map<ClaimId, ClaimRow>, lastSeq: map<Client, nat>, caps: Caps) {
    && |claims| <= caps.total
    && (forall id | id in claims :: id.client in lastSeq)
    && (forall id | id in claims :: Admissible(claims[id].ip))
  }

  ghost predicate StoreOk(t: Tables, caps: Caps) {
    HistoryOk(t) && ClaimsOk(t.claims, t.lastSeq, caps)
  }

  lemma EmptyIsOk(caps: Caps)
    ensures StoreOk(EMPTY, caps)
  {
  }

  /** Every stored number of the client is below the events still to be applied, and none of their
      identifiers is stored. */
  ghost predicate Fits(events: map<EntryId, EventRow>, client: Client, batch: seq<Event>) {
    && (forall k, e | k in events && k.client == client && e in batch :: events[k].event.number < e.number)
    && (forall e | e in batch :: EntryId(client, e.id) !in events)
  }

  /** The rows a batch leaves are the old ones and one for each event. */
  ghost predicate AddsExactly(
    before: map<EntryId, EventRow>, after: map<EntryId, EventRow>, client: Client, batch: seq<Event>, now: real)
  {
    && (forall k | k in after :: (k in before && after[k] == before[k])
          || exists e | e in batch :: k == EntryId(client, e.id) && after[k] == EventRow(e, now))
    && (forall k | k in before :: k in after && (k.client != client ==> after[k] == before[k]))
    && (forall e | e in batch :: EntryId(client, e.id) in after && after[EntryId(client, e.id)] == EventRow(e, now))
  }

  lemma FitsTail(t: Tables, client: Client, batch: seq<Event>, now: real)
    requires batch != [] && Rising(batch) && DistinctEventIds(batch) && Fits(t.events, client, batch)
    requires SameIpIfHeld(t.claims, ClaimId(client, batch[0].jail, batch[0].banId), batch[0].ip)
    ensures ApplyOne(t, client, batch[0], now).Next?
    ensures var events := ApplyOne(t, client, batch[0], now).tables.events;
            Fits(events, client, batch[1..]) && Rising(batch[1..]) && DistinctEventIds(batch[1..])
  {
    var e := batch[0];
    assert e in batch;
    var events := t.events[EntryId(client, e.id) := EventRow(e, now)];
    forall d | d in batch[1..]
      ensures e.number < d.number && e.id != d.id && d in batch
    {
      var i :| 0 <= i < |batch[1..]| && batch[1..][i] == d;
      assert batch[i + 1] == d;
    }
  }

  /** A rising batch with distinct unused identifiers never meets a key violation in the loop; it stops
      only where an identity would change its address. */
  lemma {:induction false} LoopMeetsNoKeyViolation(t: Tables, client: Client, batch: seq<Event>, now: real)
    requires Rising(batch) && DistinctEventIds(batch) && Fits(t.events, client, batch)
    ensures var s := ApplyEach(t, client, batch, now);
            && (s.Stop? ==> s.why == Conflict)
            && (s.Next? ==> AddsExactly(t.events, s.tables.events, client, batch, now))
    decreases |batch|
  {
    if batch != [] && SameIpIfHeld(t.claims, ClaimId(client, batch[0].jail, batch[0].banId), batch[0].ip) {
      FitsTail(t, client, batch, now);
      var next := ApplyOne(t, client, batch[0], now).tables;
      LoopMeetsNoKeyViolation(next, client, batch[1..], now);
      var s := ApplyEach(next, client, batch[1..], now);
      if s.Next? {
        AddsFirst(t.events, next.events, s.tables.events, client, batch, now);
      }
    }
  }

  lemma AddsFirst(
    before: map<EntryId, EventRow>, next: map<EntryId, EventRow>, after: map<EntryId, EventRow>,
    client: Client, batch: seq<Event>, now: real)
    requires batch != [] && next == before[EntryId(client, batch[0].id) := EventRow(batch[0], now)]
    requires AddsExactly(next, after, client, batch[1..], now) && DistinctEventIds(batch)
    ensures AddsExactly(before, after, client, batch, now)
  {
    assert batch == [batch[0]] + batch[1..];
    var first := EntryId(client, batch[0].id);
    forall k | k in after
      ensures (k in before && after[k] == before[k])
        || exists e | e in batch :: k == EntryId(client, e.id) && after[k] == EventRow(e, now)
    {
      if !(k in next && after[k] == next[k]) {
        var e :| e in batch[1..] && k == EntryId(client, e.id) && after[k] == EventRow(e, now);
        assert e in batch;
      } else if k == first {
        assert batch[0] in batch;
      }
    }
    assert forall e | e in batch[1..] :: e.id != batch[0].id;
    forall e | e in batch
      ensures EntryId(client, e.id) in after && after[EntryId(client, e.id)] == EventRow(e, now)
    {
      if e != batch[0] {
        assert e in batch[1..];
      }
    }
  }

  lemma AddedEventsOk(
    before: map<EntryId, EventRow>, after: map<EntryId, EventRow>, lastSeq: map<Client, nat>,
    client: Client, batch: seq<Event>, now: real)
    requires EventsOk(before, lastSeq) && AddsExactly(before, after, client, batch, now)
    requires batch != [] && Rising(batch) && (forall e | e in batch :: e.number > 0)
    requires client in lastSeq && lastSeq[client] < batch[0].number
    ensures EventsOk(after, lastSeq[client := batch[|batch| - 1].number])
  {
    var last := batch[|batch| - 1].number;
    forall e | e in batch
      ensures lastSeq[client] < e.number <= last
    {
      var i :| 0 <= i < |batch| && batch[i] == e;
    }
    forall k, l | k in after && l in after && k.client == l.client && after[k].event.number == after[l].event.number
      ensures k == l
    {
      NumberIdentifiesRow(before, after, lastSeq, client, batch, now, k);
      NumberIdentifiesRow(before, after, lastSeq, client, batch, now, l);
    }
  }

  /** A row is either an old one, with an old number, or that of the one event with its number. */
  lemma NumberIdentifiesRow(
    before: map<EntryId, EventRow>, after: map<EntryId, EventRow>, lastSeq: map<Client, nat>,
    client: Client, batch: seq<Event>, now: real, k: EntryId)
    requires EventsOk(before, lastSeq) && AddsExactly(before, after, client, batch, now)
    requires Rising(batch) && client in lastSeq && (forall e | e in batch :: lastSeq[client] < e.number)
    requires k in after
    ensures (k in before && after[k] == before[k])
      || (k.client == client && after[k].event.number > lastSeq[client]
          && forall i | 0 <= i < |batch| && batch[i].number == after[k].event.number :: k == EntryId(client, batch[i].id))
  {
    if !(k in before && after[k] == before[k]) {
      var e :| e in batch && k == EntryId(client, e.id) && after[k] == EventRow(e, now);
      var j :| 0 <= j < |batch| && batch[j] == e;
      forall i | 0 <= i < |batch| && batch[i].number == e.number
        ensures i == j
      {
      }
    }
  }

  lemma SubsetKeepsEventsOk(rows: map<EntryId, EventRow>, kept: map<EntryId, EventRow>, lastSeq: map<Client, nat>)
    requires EventsOk(rows, lastSeq) && forall k | k in kept :: k in rows && kept[k] == rows[k]
    ensures EventsOk(kept, lastSeq)
  {
  }

  lemma SubsetKeepsSnapshotsOk(
    rows: map<EntryId, SnapshotRow>, kept: map<EntryId, SnapshotRow>, lastSeq: map<Client, nat>)
    requires SnapshotsOk(rows, lastSeq) && forall k | k in kept :: k in rows && kept[k] == rows[k]
    ensures SnapshotsOk(kept, lastSeq)
  {
  }

  // ---------------------------------------------------------------- claims

  lemma {:induction false} EffectsKeepRowsOk(
    claims: map<ClaimId, ClaimRow>, client: Client, batch: seq<Event>, lastSeq: map<Client, nat>)
    requires client in lastSeq && forall e | e in batch :: Admissible(e.ip)
    requires forall id | id in claims :: id.client in lastSeq && Admissible(claims[id].ip)
    ensures forall id | id in EffectAll(claims, client, batch) ::
              id.client in lastSeq && Admissible(EffectAll(claims, client, batch)[id].ip)
    decreases |batch|
  {
    hide Admissible;
    if batch != [] {
      assert batch[0] in batch;
      EffectsKeepRowsOk(Effect(claims, client, batch[0]), client, batch[1..], lastSeq);
    }
  }

  lemma RowsOfClaimsOk(client: Client, list: seq<Claim>)
    requires forall c | c in list :: Admissible(c.ip)
    ensures forall id | id in RowsOfClaims(client, list) ::
              id.client == client && Admissible(RowsOfClaims(client, list)[id].ip)
  {
    hide Admissible;
    RowsOfClaimsAreTheClients(client, list);
  }

  // ---------------------------------------------------------------- requests

  lemma ValidatedEventsKeepStoreOk(
    t: Tables, client: Client, batch: seq<Event>, limit: int, caps: Caps, now: real, maximum: nat)
    requires StoreOk(t, caps) && ValidEvents(batch, maximum)
    ensures var (after, r) := ApplyEvents(t, client, batch, limit, caps, now);
            StoreOk(after, caps) && r != Refused(Integrity) && r != Refused(Malformed)
  {
    hide Admissible;
    hide ReceiverJail;
    hide StoreOk;
    var r := ApplyEvents(t, client, batch, limit, caps, now).1;
    RegisteredIsOk(t, client, caps);
    StoreOkHasHistoryOk(t, caps);
    if r.Applied? {
      AppliedEventsOk(t, client, batch, limit, caps, now);
    } else {
      NoIntegrityRefusal(t, client, batch, limit, caps, now);
    }
  }

  lemma NoIntegrityRefusal(t: Tables, client: Client, batch: seq<Event>, limit: int, caps: Caps, now: real)
    requires HistoryOk(t) && batch != [] && Rising(batch) && DistinctEventIds(batch)
    ensures var r := ApplyEvents(t, client, batch, limit, caps, now).1;
            r != Refused(Integrity) && r != Refused(Malformed)
  {
    hide HistoryOk;
    hide ApplyEach;
    hide Known;
    hide Fits;
    hide ClientRows;
    hide TrimEvents;
    if batch[0].number > LastSeq(t, client) && !(exists e | e in batch :: Known(t, client, e)) {
      FreshBatchFits(t, client, batch);
      LoopMeetsNoKeyViolation(Registered(t, client), client, batch, now);
    }
  }

  lemma StoreOkHasHistoryOk(t: Tables, caps: Caps)
    requires StoreOk(t, caps)
    ensures HistoryOk(t)
  {
  }

  lemma RegisteredIsOk(t: Tables, client: Client, caps: Caps)
    requires StoreOk(t, caps)
    ensures StoreOk(Registered(t, client), caps)
  {
    hide Admissible;
  }

  lemma FreshBatchFits(t: Tables, client: Client, batch: seq<Event>)
    requires HistoryOk(t) && Rising(batch) && batch != [] && batch[0].number > LastSeq(t, client)
    requires forall e | e in batch :: !Known(t, client, e)
    ensures Fits(t.events, client, batch)
  {
    forall e | e in batch
      ensures e.number > LastSeq(t, client)
    {
      var i :| 0 <= i < |batch| && batch[i] == e;
    }
  }

  lemma AppliedEventsOk(t: Tables, client: Client, batch: seq<Event>, limit: int, caps: Caps, now: real)
    requires StoreOk(t, caps) && batch != [] && Rising(batch) && DistinctEventIds(batch)
    requires forall e | e in batch :: e.number > 0 && Admissible(e.ip)
    requires ApplyEvents(t, client, batch, limit, caps, now).1.Applied?
    ensures StoreOk(ApplyEvents(t, client, batch, limit, caps, now).0, caps)
  {
    hide Admissible;
    hide ApplyEvents;
    hide ApplyEach;
    hide EffectAll;
    hide TrimEvents;
    hide EventsOk;
    hide SnapshotsOk;
    var t0 := Registered(t, client);
    AppliedBatchForm(t, client, batch, limit, caps, now);
    RegisteredIsOk(t, client, caps);
    FreshBatchFits(t, client, batch);
    LoopMeetsNoKeyViolation(t0, client, batch, now);
    ApplyEachEffects(t0, client, batch, now);
    EffectsKeepRowsOk(t.claims, client, batch, t0.lastSeq);
    var t1 := ApplyEach(t0, client, batch, now).tables;
    var lastSeq := t0.lastSeq[client := batch[|batch| - 1].number];
    AddedEventsOk(t.events, t1.events, t0.lastSeq, client, batch, now);
    TrimmedEventsOk(t1.events, client, caps.events, lastSeq);
    RaisedSnapshotsOk(t0.snapshots, t0.lastSeq, client, batch[|batch| - 1].number);
  }

  lemma TrimmedEventsOk(events: map<EntryId, EventRow>, client: Client, cap: nat, lastSeq: map<Client, nat>)
    requires EventsOk(events, lastSeq)
    ensures EventsOk(TrimEvents(events, client, cap), lastSeq)
  {
    SubsetKeepsEventsOk(events, TrimEvents(events, client, cap), lastSeq);
  }

  lemma RaisedSnapshotsOk(rows: map<EntryId, SnapshotRow>, lastSeq: map<Client, nat>, client: Client, number: nat)
    requires SnapshotsOk(rows, lastSeq) && client in lastSeq && lastSeq[client] <= number
    ensures SnapshotsOk(rows, lastSeq[client := number])
  {
  }

  lemma RaisedEventsOk(rows: map<EntryId, EventRow>, lastSeq: map<Client, nat>, client: Client, number: nat)
    requires EventsOk(rows, lastSeq) && (client in lastSeq ==> lastSeq[client] <= number)
    ensures EventsOk(rows, lastSeq[client := number])
  {
  }

  lemma ValidatedSnapshotKeepsStoreOk(
    t: Tables, client: Client, id: Uuid, number: nat, list: seq<Claim>, limit: int, caps: Caps, now: real, maximum: nat)
    requires StoreOk(t, caps) && ValidSnapshot(number, list, maximum)
    ensures var (after, r) := ApplySnapshot(t, client, id, number, list, limit, caps, now);
            StoreOk(after, caps) && r != Refused(Integrity) && r != Refused(Malformed)
  {
    hide Admissible;
    hide ReceiverJail;
    hide StoreOk;
    hide Replaced;
    RegisteredIsOk(t, client, caps);
    StoreOkHasHistoryOk(t, caps);
    var r := ApplySnapshot(t, client, id, number, list, limit, caps, now).1;
    if r.Applied? {
      AppliedSnapshotForm(t, client, id, number, list, limit, caps, now);
      var rows := OtherRows(t.claims, client) + RowsOfClaims(client, list);
      ReplacedTablesOk(t, client, rows, id, SnapshotRow(number, list, now), caps);
    }
  }

  lemma ReplacedTablesOk(
    t: Tables, client: Client, rows: map<ClaimId, ClaimRow>, id: Uuid, entry: SnapshotRow, caps: Caps)
    requires StoreOk(t, caps) && LastSeq(t, client) < entry.number
    requires rows == OtherRows(t.claims, client) + RowsOfClaims(client, entry.claims) && |rows| <= caps.total
    requires forall c | c in entry.claims :: Admissible(c.ip)
    ensures StoreOk(Replaced(t, client, rows, id, entry, caps), caps)
  {
    hide Admissible;
    hide EventsOk;
    hide SnapshotsOk;
    hide TrimSnapshots;
    hide RowsOfClaims;
    hide OtherRows;
    ReplacedRowsOk(t.claims, client, entry.claims, t.lastSeq[client := entry.number]);
    RaisedEventsOk(t.events, t.lastSeq, client, entry.number);
    AddedSnapshotOk(t.snapshots, t.lastSeq, client, id, entry, caps.snapshots);
  }

  lemma ReplacedRowsOk(claims: map<ClaimId, ClaimRow>, client: Client, list: seq<Claim>, lastSeq: map<Client, nat>)
    requires client in lastSeq && forall id | id in claims :: (id.client == client || id.client in lastSeq) && Admissible(claims[id].ip)
    requires forall c | c in list :: Admissible(c.ip)
    ensures var rows := OtherRows(claims, client) + RowsOfClaims(client, list);
            forall id | id in rows :: id.client in lastSeq && Admissible(rows[id].ip)
  {
    hide Admissible;
    hide RowsOfClaims;
    RowsOfClaimsOk(client, list);
  }

  lemma AddedSnapshotOk(
    rows: map<EntryId, SnapshotRow>, lastSeq: map<Client, nat>, client: Client, id: Uuid, entry: SnapshotRow, cap: nat)
    requires SnapshotsOk(rows, lastSeq) && entry.number > 0
    requires client in lastSeq ==> lastSeq[client] < entry.number
    ensures SnapshotsOk(TrimSnapshots(rows[EntryId(client, id) := entry], client, cap), lastSeq[client := entry.number])
  {
    var all := rows[EntryId(client, id) := entry];
    var raised := lastSeq[client := entry.number];
    assert SnapshotsOk(all, raised);
    SubsetKeepsSnapshotsOk(all, TrimSnapshots(all, client, cap), raised);
  }

  /** A validated request keeps the store's invariant and never meets a uniqueness violation, whatever
      part of the history has been forgotten. */
  lemma ValidRequestsKeepStoreOk(t: Tables, request: Request, caps: Caps, now: real, maximum: nat)
    requires StoreOk(t, caps) && Valid(request, maximum)
    ensures var (after, r) := Apply(t, request, caps, now);
            StoreOk(after, caps) && r != Refused(Integrity) && r != Refused(Malformed)
  {
    match request
    case Events(client, batch, limit) =>
      ValidatedEventsKeepStoreOk(t, client, batch, limit, caps, now, maximum);
    case Replace(client, id, number, list, limit) =>
      ValidatedSnapshotKeepsStoreOk(t, client, id, number, list, limit, caps, now, maximum);
  }

  lemma PruneKeepsStoreOk(t: Tables, events: set<EntryId>, snapshots: set<EntryId>, caps: Caps)
    requires StoreOk(t, caps)
    ensures StoreOk(Prune(t, events, snapshots), caps)
  {
    hide Admissible;
    SubsetKeepsEventsOk(t.events, t.events - events, t.lastSeq);
    SubsetKeepsSnapshotsOk(t.snapshots, t.snapshots - snapshots, t.lastSeq);
  }
}
