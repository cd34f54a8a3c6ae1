/** What a request to the receiver answers and leaves, case by case, in terms of the tables and of the
    request's own fields alone. */
module ReceiverOutcomes {
  import B = BatchLaws
  import opened ReceiverLaws
  import opened ReceiverModel
  import opened Retention
  import opened StoreInvariant
  import opened Wire

  // ---------------------------------------------------------------- rows after a batch

  predicate SameIdentity(a: Event, b: Event) {
    a.jail == b.jail && a.banId == b.banId
  }

  predicate IsAbout(e: Event, client: Client, id: ClaimId) {
    id.client == client && id.jail == e.jail && id.banId == e.banId
  }

  predicate Unmentioned(batch: seq<Event>, client: Client, id: ClaimId) {
    forall e | e in batch :: !IsAbout(e, client, id)
  }

  /** A batch leaves what the last event of each identity says: a ban its address, and a permanent claim
      exactly if the event says so, with the event's expiry; an unban no row. All other rows stay. */
  predicate BatchRows(before: map<ClaimId, ClaimRow>, after: map<ClaimId, ClaimRow>, client: Client, batch: seq<Event>) {
    && (forall i | 0 <= i < |batch| && (forall j | i < j < |batch| :: !SameIdentity(batch[j], batch[i])) ::
          var e, id := batch[i], ClaimId(client, batch[i].jail, batch[i].banId);
          if e.op == Ban
          then id in after && after[id].ip == e.ip && after[id].expiresAt == e.expiresAt
               && (after[id].permanent <==> e.permanent == Some(true))
          else id !in after)
    && (forall id | id in after && Unmentioned(batch, client, id) :: id in before && after[id] == before[id])
    && (forall id | id in before && Unmentioned(batch, client, id) :: id in after)
  }

  lemma RowAfterOne(t: Tables, client: Client, e: Event, now: real)
    requires ApplyOne(t, client, e, now).Next?
    ensures var after, id := ApplyOne(t, client, e, now).tables.claims, ClaimId(client, e.jail, e.banId);
            && (e.op == Ban ==> (id in after && after[id].ip == e.ip && after[id].expiresAt == e.expiresAt
                                 && (after[id].permanent <==> e.permanent == Some(true))))
            && (e.op == Unban ==> id !in after)
            && (forall other | other != id :: other in after <==> other in t.claims)
            && (forall other | other != id && other in after :: after[other] == t.claims[other])
  {
  }

  lemma FirstThenRest(
    before: map<ClaimId, ClaimRow>, next: map<ClaimId, ClaimRow>, after: map<ClaimId, ClaimRow>,
    client: Client, batch: seq<Event>)
    requires batch != [] && BatchRows(next, after, client, batch[1..])
    requires var e, id := batch[0], ClaimId(client, batch[0].jail, batch[0].banId);
             && (e.op == Ban ==> (id in next && next[id].ip == e.ip && next[id].expiresAt == e.expiresAt
                                  && (next[id].permanent <==> e.permanent == Some(true))))
             && (e.op == Unban ==> id !in next)
             && (forall other | other != id :: other in next <==> other in before)
             && (forall other | other != id && other in next :: next[other] == before[other])
    ensures BatchRows(before, after, client, batch)
  {
    var rest := batch[1..];
    assert batch == [batch[0]] + rest;
    forall i | 0 <= i < |batch| && forall j | i < j < |batch| :: !SameIdentity(batch[j], batch[i])
      ensures var e, id := batch[i], ClaimId(client, batch[i].jail, batch[i].banId);
              if e.op == Ban
              then id in after && after[id].ip == e.ip && after[id].expiresAt == e.expiresAt
                   && (after[id].permanent <==> e.permanent == Some(true))
              else id !in after
    {
      if i > 0 {
        assert rest[i - 1] == batch[i];
        assert forall j | i - 1 < j < |rest| :: rest[j] == batch[j + 1];
      } else {
        var id := ClaimId(client, batch[0].jail, batch[0].banId);
        forall e | e in rest
          ensures !IsAbout(e, client, id)
        {
          var j :| 0 <= j < |rest| && rest[j] == e;
          assert batch[j + 1] == e;
        }
      }
    }
    forall id | Unmentioned(batch, client, id)
      ensures Unmentioned(rest, client, id)
      ensures id != ClaimId(client, batch[0].jail, batch[0].banId)
    {
      assert batch[0] in batch;
    }
  }

  lemma NoEventsNoChange(claims: map<ClaimId, ClaimRow>, client: Client)
    ensures BatchRows(claims, claims, client, [])
  {
  }

  /** The loop over a batch, if it completes. */
  lemma {:induction false} LoopLeavesRows(t: Tables, client: Client, batch: seq<Event>, now: real)
    requires ApplyEach(t, client, batch, now).Next?
    ensures BatchRows(t.claims, ApplyEach(t, client, batch, now).tables.claims, client, batch)
    decreases |batch|
  {
    hide BatchRows;
    hide ApplyOne;
    if batch == [] {
      NoEventsNoChange(t.claims, client);
    } else {
      var next := ApplyOne(t, client, batch[0], now).tables;
      RowAfterOne(t, client, batch[0], now);
      LoopLeavesRows(next, client, batch[1..], now);
      FirstThenRest(t.claims, next.claims, ApplyEach(next, client, batch[1..], now).tables.claims, client, batch);
    }
  }

  /** What every applied batch leaves in the claims table. */
  lemma AppliedBatchRows(t: Tables, client: Client, batch: seq<Event>, limit: int, caps: Caps, now: real)
    requires ApplyEvents(t, client, batch, limit, caps, now).1.Applied?
    ensures BatchRows(t.claims, ApplyEvents(t, client, batch, limit, caps, now).0.claims, client, batch)
  {
    hide BatchRows;
    hide ApplyEvents;
    hide ApplyEach;
    hide TrimEvents;
    hide ClientRows;
    AppliedBatchForm(t, client, batch, limit, caps, now);
    LoopLeavesRows(Registered(t, client), client, batch, now);
  }

  // ---------------------------------------------------------------- identity conflicts in a batch

  /** When event i comes, the row of its identity has another address: the row that the latest earlier event
      of the identity left, or else the stored one. */
  predicate ConflictAt(claims: map<ClaimId, ClaimRow>, client: Client, batch: seq<Event>, i: int)
    requires 0 <= i < |batch|
  {
    var e, id := batch[i], ClaimId(client, batch[i].jail, batch[i].banId);
    || (exists j | 0 <= j < i ::
          && SameIdentity(batch[j], e) && (forall m | j < m < i :: !SameIdentity(batch[m], e))
          && batch[j].op == Ban && batch[j].ip != e.ip)
    || ((forall j | 0 <= j < i :: !SameIdentity(batch[j], e)) && id in claims && claims[id].ip != e.ip)
  }

  predicate SomeConflict(claims: map<ClaimId, ClaimRow>, client: Client, batch: seq<Event>) {
    exists i | 0 <= i < |batch| :: ConflictAt(claims, client, batch, i)
  }

  lemma FirstConflict(claims: map<ClaimId, ClaimRow>, client: Client, batch: seq<Event>)
    requires batch != []
    ensures ConflictAt(claims, client, batch, 0) <==>
      !SameIpIfHeld(claims, ClaimId(client, batch[0].jail, batch[0].banId), batch[0].ip)
  {
  }

  lemma LaterConflict(claims: map<ClaimId, ClaimRow>, client: Client, batch: seq<Event>, i: int)
    requires 0 < i < |batch|
    requires SameIpIfHeld(claims, ClaimId(client, batch[0].jail, batch[0].banId), batch[0].ip)
    ensures ConflictAt(claims, client, batch, i) <==> ConflictAt(Effect(claims, client, batch[0]), client, batch[1..], i - 1)
  {
    var next, rest := Effect(claims, client, batch[0]), batch[1..];
    var e, id := batch[i], ClaimId(client, batch[i].jail, batch[i].banId);
    assert rest[i - 1] == e;
    assert forall j | 0 <= j < i - 1 :: rest[j] == batch[j + 1];
    if ConflictAt(claims, client, batch, i) {
      if j :| 0 <= j < i && SameIdentity(batch[j], e) && (forall m | j < m < i :: !SameIdentity(batch[m], e))
              && batch[j].op == Ban && batch[j].ip != e.ip
      {
        if j == 0 {
          assert id in next && next[id].ip != e.ip;
        } else {
          assert rest[j - 1] == batch[j];
        }
      } else {
        assert !SameIdentity(batch[0], e);
        assert forall j | 0 <= j < i - 1 :: !SameIdentity(rest[j], e);
      }
    }
    if ConflictAt(next, client, rest, i - 1) {
      if j :| 0 <= j < i - 1 && SameIdentity(rest[j], e) && (forall m | j < m < i - 1 :: !SameIdentity(rest[m], e))
              && rest[j].op == Ban && rest[j].ip != e.ip
      {
        assert batch[j + 1] == rest[j];
        assert forall m | j + 1 < m < i :: batch[m] == rest[m - 1];
      } else {
        assert forall m | 0 < m < i :: batch[m] == rest[m - 1];
      }
    }
  }

  lemma {:induction false} IdentitiesHoldIff(claims: map<ClaimId, ClaimRow>, client: Client, batch: seq<Event>)
    ensures B.IdentitiesHold(claims, client, batch) <==> !SomeConflict(claims, client, batch)
    decreases |batch|
  {
    hide ConflictAt;
    hide SameIpIfHeld;
    hide Effect;
    if batch != [] {
      FirstConflict(claims, client, batch);
      if SameIpIfHeld(claims, ClaimId(client, batch[0].jail, batch[0].banId), batch[0].ip) {
        var next := Effect(claims, client, batch[0]);
        IdentitiesHoldIff(next, client, batch[1..]);
        forall i | 0 < i < |batch|
          ensures ConflictAt(claims, client, batch, i) <==> ConflictAt(next, client, batch[1..], i - 1)
        {
          LaterConflict(claims, client, batch, i);
        }
        if j :| 0 <= j < |batch[1..]| && ConflictAt(next, client, batch[1..], j) {
          assert ConflictAt(claims, client, batch, j + 1);
        }
      }
    }
  }

  // ---------------------------------------------------------------- the answers to a batch

  function StoredNumber(t: Tables, client: Client): nat {
    if client in t.lastSeq then t.lastSeq[client] else 0
  }

  /** How many rows a client has. */
  function Holding(claims: map<ClaimId, ClaimRow>, client: Client): nat {
    |set id | id in claims && id.client == client|
  }

  lemma HoldingMeans(claims: map<ClaimId, ClaimRow>, client: Client)
    ensures |ClientRows(claims, client)| == Holding(claims, client)
  {
    assert ClientRows(claims, client).Keys == set id | id in claims && id.client == client;
    assert |ClientRows(claims, client).Keys| == |ClientRows(claims, client)|;
  }

  predicate IsStored(t: Tables, client: Client, e: Event) {
    EntryId(client, e.id) in t.events
  }

  predicate IsStoredOtherwise(t: Tables, client: Client, e: Event) {
    IsStored(t, client, e) && t.events[EntryId(client, e.id)].event != e
  }

  /** The six answers to a batch, each in exactly its case; `left` are the rows that the batch would leave. */
  predicate BatchAnswered(
    t: Tables, r: Outcome, client: Client, batch: seq<Event>, limit: int, caps: Caps, left: map<ClaimId, ClaimRow>)
    requires batch != []
  {
    var last, low, high := StoredNumber(t, client), batch[0].number, batch[|batch| - 1].number;
    var reused := exists e | e in batch :: IsStoredOtherwise(t, client, e);
    var all := forall e | e in batch :: IsStored(t, client, e);
    var some := exists e | e in batch :: IsStored(t, client, e);
    var passes := low > last && !some && !SomeConflict(t.claims, client, batch);
    && (r == Duplicate(last) <==> high <= last && !reused && all)
    && (r == Stale(last) <==> high <= last && !reused && !all)
    && (r == Refused(Conflict) <==>
         reused || low <= last < high || (low > last && (some || SomeConflict(t.claims, client, batch))))
    && (r == Refused(ClientLimit) <==> passes && Holding(left, client) > limit)
    && (r == Refused(GlobalLimit) <==> passes && Holding(left, client) <= limit && |left| > caps.total)
    && (r == Applied(high) <==> passes && Holding(left, client) <= limit && |left| <= caps.total)
    && (r == Duplicate(last) || r == Stale(last) || r == Applied(high)
        || r == Refused(Conflict) || r == Refused(ClientLimit) || r == Refused(GlobalLimit))
  }

  /** An applied batch raises its client's number to its last one, and adds one row for each event to a
      history that then keeps the client's newest rows; any other leaves claims, numbers and histories. */
  ghost predicate BatchRecorded(
    t: Tables, after: Tables, r: Outcome, client: Client, batch: seq<Event>, caps: Caps, now: real)
    requires batch != []
  {
    && after.snapshots == t.snapshots
    && (forall c :: StoredNumber(after, c) ==
          if r.Applied? && c == client then batch[|batch| - 1].number else StoredNumber(t, c))
    && (!r.Applied? ==> after.claims == t.claims && after.events == t.events)
    && (r.Applied? ==>
         exists all :: AddsExactly(t.events, all, client, batch, now) && KeepsNewestEvents(all, after.events, client, caps.events))
  }

  lemma RefusalsOfNewBatch(t: Tables, client: Client, batch: seq<Event>, limit: int, caps: Caps, now: real)
    requires StoreOk(t, caps) && batch != [] && Rising(batch) && DistinctEventIds(batch)
    requires batch[0].number > LastSeq(t, client) && forall e | e in batch :: !Known(t, client, e)
    ensures var r, left := ApplyEvents(t, client, batch, limit, caps, now).1, EffectAll(t.claims, client, batch);
            && (r == Refused(Conflict) <==> !B.IdentitiesHold(t.claims, client, batch))
            && (r == Refused(ClientLimit) <==>
                 B.IdentitiesHold(t.claims, client, batch) && |ClientRows(left, client)| > limit)
            && (r == Refused(GlobalLimit) <==>
                 B.IdentitiesHold(t.claims, client, batch) && |ClientRows(left, client)| <= limit && |left| > caps.total)
            && (r == Applied(batch[|batch| - 1].number) <==>
                 B.IdentitiesHold(t.claims, client, batch) && |ClientRows(left, client)| <= limit && |left| <= caps.total)
            && (r == Applied(batch[|batch| - 1].number) || r.Refused?)
            && (r.Refused? ==> r.why != Integrity && r.why != Malformed)
  {
    hide Known;
    hide StoreOk;
    hide ApplyEach;
    hide ClientRows;
    hide TrimEvents;
    hide Fits;
    hide B.IdentitiesHold;
    StoreOkHasHistoryOk(t, caps);
    FreshBatchFits(t, client, batch);
    var t0 := Registered(t, client);
    B.LoopCompletesIff(t0, client, batch, now);
    LoopMeetsNoKeyViolation(t0, client, batch, now);
    B.MismatchedIsKnown(t, client, batch);
    if ApplyEach(t0, client, batch, now).Next? {
      ApplyEachEffects(t0, client, batch, now);
    }
  }

  /** Every answer to a validated batch, and what it leaves. */
  lemma BatchIsAnswered(t: Tables, client: Client, batch: seq<Event>, limit: int, caps: Caps, now: real, maximum: nat)
    returns (left: map<ClaimId, ClaimRow>)
    requires StoreOk(t, caps) && ValidEvents(batch, maximum)
    ensures !SomeConflict(t.claims, client, batch) ==> BatchRows(t.claims, left, client, batch)
    ensures var (after, r) := ApplyEvents(t, client, batch, limit, caps, now);
            && BatchAnswered(t, r, client, batch, limit, caps, left)
            && (r.Applied? ==> after.claims == left)
  {
    hide StoreOk;
    hide ReceiverJail;
    hide Admissible;
    hide ApplyEach;
    hide ClientRows;
    hide BatchRows;
    hide EffectAll;
    hide SomeConflict;
    hide Commit;
    hide B.IdentitiesHold;
    hide Holding;
    left := EffectAll(t.claims, client, batch);
    HoldingMeans(left, client);
    IdentitiesHoldIff(t.claims, client, batch);
    EffectsAreBatchRows(t.claims, client, batch);
    B.MismatchedIsKnown(t, client, batch);
    var high := batch[|batch| - 1].number;
    FirstIsLowest(batch);
    if batch[0].number > LastSeq(t, client) && forall e | e in batch :: !Known(t, client, e) {
      RefusalsOfNewBatch(t, client, batch, limit, caps, now);
      if ApplyEvents(t, client, batch, limit, caps, now).1.Applied? {
        BatchChangesClaims(t, client, batch, limit, caps, now);
      }
    }
  }

  lemma FirstIsLowest(batch: seq<Event>)
    requires Rising(batch) && batch != []
    ensures batch[0].number <= batch[|batch| - 1].number
  {
  }

  lemma BatchChangesClaims(t: Tables, client: Client, batch: seq<Event>, limit: int, caps: Caps, now: real)
    requires ApplyEvents(t, client, batch, limit, caps, now).1.Applied?
    ensures ApplyEvents(t, client, batch, limit, caps, now).0.claims == EffectAll(t.claims, client, batch)
  {
    hide ApplyEvents;
    hide ApplyEach;
    hide TrimEvents;
    hide ClientRows;
    AppliedBatchForm(t, client, batch, limit, caps, now);
    ApplyEachEffects(Registered(t, client), client, batch, now);
  }

  lemma {:induction false} EffectsAreBatchRows(claims: map<ClaimId, ClaimRow>, client: Client, batch: seq<Event>)
    ensures B.IdentitiesHold(claims, client, batch) ==> BatchRows(claims, EffectAll(claims, client, batch), client, batch)
    decreases |batch|
  {
    hide BatchRows;
    if batch == [] {
      NoEventsNoChange(claims, client);
    } else if B.IdentitiesHold(claims, client, batch) {
      var next := Effect(claims, client, batch[0]);
      EffectsAreBatchRows(next, client, batch[1..]);
      FirstThenRest(claims, next, EffectAll(next, client, batch[1..]), client, batch);
    }
  }

  /** What every answer to a validated batch records. */
  lemma BatchIsRecorded(t: Tables, client: Client, batch: seq<Event>, limit: int, caps: Caps, now: real, maximum: nat)
    requires StoreOk(t, caps) && ValidEvents(batch, maximum)
    ensures var (after, r) := ApplyEvents(t, client, batch, limit, caps, now);
            BatchRecorded(t, after, r, client, batch, caps, now)
  {
    hide ApplyEvents;
    hide ApplyEach;
    hide StoreOk;
    hide ReceiverJail;
    hide Admissible;
    hide TrimEvents;
    hide ClientRows;
    hide AddsExactly;
    hide KeepsNewestEvents;
    NotAppliedChangesNothing(t, Events(client, batch, limit), caps, now);
    if ApplyEvents(t, client, batch, limit, caps, now).1.Applied? {
      AppliedBatchForm(t, client, batch, limit, caps, now);
      AppliedHistory(t, client, batch, caps, now);
      var t1 := ApplyEach(Registered(t, client), client, batch, now).tables;
      ApplyEachEffects(Registered(t, client), client, batch, now);
    }
  }

  lemma AppliedHistory(t: Tables, client: Client, batch: seq<Event>, caps: Caps, now: real)
    requires StoreOk(t, caps) && batch != [] && Rising(batch) && DistinctEventIds(batch)
    requires forall e | e in batch :: e.number > 0 && !Known(t, client, e)
    requires LastSeq(t, client) < batch[0].number && ApplyEach(Registered(t, client), client, batch, now).Next?
    ensures var all := ApplyEach(Registered(t, client), client, batch, now).tables.events;
            AddsExactly(t.events, all, client, batch, now)
            && KeepsNewestEvents(all, TrimEvents(all, client, caps.events), client, caps.events)
  {
    hide ApplyEach;
    hide AddsExactly;
    hide KeepsNewestEvents;
    hide TrimEvents;
    hide Fits;
    hide ClaimsOk;
    hide SnapshotsOk;
    var t0 := Registered(t, client);
    RegisteredIsOk(t, client, caps);
    FreshBatchFits(t, client, batch);
    LoopMeetsNoKeyViolation(t0, client, batch, now);
    var all := ApplyEach(t0, client, batch, now).tables.events;
    AddedEventsOk(t.events, all, t0.lastSeq, client, batch, now);
    TrimKeepsNewestEvents(all, client, caps.events);
  }

  // ---------------------------------------------------------------- rows after a snapshot

  /** A snapshot leaves its client exactly the listed claims, each with its address and lifetime, and all
      other clients their rows. */
  predicate SnapshotRows(before: map<ClaimId, ClaimRow>, after: map<ClaimId, ClaimRow>, client: Client, list: seq<Claim>) {
    && (forall c | c in list ::
          var id := ClaimId(client, c.jail, c.banId);
          && id in after && after[id].ip == c.ip
          && after[id].permanent == c.permanent && after[id].expiresAt == c.expiresAt)
    && (forall id | id in after && id.client == client ::
          exists c | c in list :: c.jail == id.jail && c.banId == id.banId)
    && (forall id | id in before && id.client != client :: id in after)
    && (forall id | id in after && id.client != client :: id in before && after[id] == before[id])
  }

  lemma ReplacedAreSnapshotRows(before: map<ClaimId, ClaimRow>, client: Client, list: seq<Claim>)
    requires DistinctIdentities(list)
    ensures SnapshotRows(before, OtherRows(before, client) + RowsOfClaims(client, list), client, list)
  {
    RowsOfDistinctClaims(client, list);
    RowsOfClaimsAreTheClients(client, list);
    hide RowsOfClaims;
    hide DistinctIdentities;
  }

  /** What every applied snapshot leaves in the claims table. */
  lemma AppliedSnapshotRows(
    t: Tables, client: Client, id: Uuid, number: nat, list: seq<Claim>, limit: int, caps: Caps, now: real)
    requires ApplySnapshot(t, client, id, number, list, limit, caps, now).1.Applied?
    ensures SnapshotRows(t.claims, ApplySnapshot(t, client, id, number, list, limit, caps, now).0.claims, client, list)
  {
    hide ApplySnapshot;
    hide SnapshotRows;
    hide TrimSnapshots;
    hide RowsOfClaims;
    hide OtherRows;
    AppliedSnapshotForm(t, client, id, number, list, limit, caps, now);
    ReplacedAreSnapshotRows(t.claims, client, list);
  }

  /** The six answers to a snapshot, each in exactly its case. */
  predicate SnapshotAnswered(
    t: Tables, r: Outcome, client: Client, id: Uuid, number: nat, list: seq<Claim>, limit: int, caps: Caps)
  {
    var last, key := StoredNumber(t, client), EntryId(client, id);
    var reused := key in t.snapshots && (t.snapshots[key].number != number || t.snapshots[key].claims != list);
    var rebinds := exists c | c in list ::
      var claim := ClaimId(client, c.jail, c.banId); claim in t.claims && t.claims[claim].ip != c.ip;
    var others := |set o | o in t.claims && o.client != client|;
    var passes := |list| <= limit && !reused && number > last && !rebinds;
    && (r == Refused(ClientLimit) <==> |list| > limit)
    && (r == Refused(Conflict) <==> |list| <= limit && (reused || (number > last && rebinds)))
    && (r == Duplicate(last) <==> |list| <= limit && !reused && number <= last && key in t.snapshots)
    && (r == Stale(last) <==> |list| <= limit && !reused && number <= last && key !in t.snapshots)
    && (r == Refused(GlobalLimit) <==> passes && others + |list| > caps.total)
    && (r == Applied(number) <==> passes && others + |list| <= caps.total)
    && (r == Duplicate(last) || r == Stale(last) || r == Applied(number)
        || r == Refused(Conflict) || r == Refused(ClientLimit) || r == Refused(GlobalLimit))
  }

  lemma ReplacedSize(claims: map<ClaimId, ClaimRow>, client: Client, list: seq<Claim>)
    requires DistinctIdentities(list)
    ensures |OtherRows(claims, client) + RowsOfClaims(client, list)| ==
      |set o | o in claims && o.client != client| + |list|
  {
    RowsOfDistinctClaims(client, list);
    RowsOfClaimsAreTheClients(client, list);
    hide RowsOfClaims;
    hide DistinctIdentities;
    var others, own := OtherRows(claims, client), RowsOfClaims(client, list);
    assert others.Keys == set o | o in claims && o.client != client;
    assert (others + own).Keys == others.Keys + own.Keys && others.Keys !! own.Keys;
    assert |(others + own).Keys| == |others + own| && |others.Keys| == |others| && |own.Keys| == |own|;
  }

  lemma RebindsMeans(t: Tables, client: Client, list: seq<Claim>)
    ensures Rebinds(t, client, list) <==>
      exists c | c in list ::
        var claim := ClaimId(client, c.jail, c.banId); claim in t.claims && t.claims[claim].ip != c.ip
  {
  }

  /** Every answer to a validated snapshot. */
  lemma SnapshotIsAnswered(
    t: Tables, client: Client, id: Uuid, number: nat, list: seq<Claim>, limit: int, caps: Caps, now: real, maximum: nat)
    requires StoreOk(t, caps) && ValidSnapshot(number, list, maximum)
    ensures var r := ApplySnapshot(t, client, id, number, list, limit, caps, now).1;
            SnapshotAnswered(t, r, client, id, number, list, limit, caps)
  {
    hide ReceiverJail;
    hide Admissible;
    hide OtherRows;
    hide RowsOfClaims;
    hide Replaced;
    hide Rebinds;
    hide DistinctIdentities;
    ReplacedSize(t.claims, client, list);
    RebindsMeans(t, client, list);
    SnapshotKeyIsFree(t, client, id, number);
    hide SnapshotKeyTaken;
    hide StoreOk;
    hide SnapshotsOk;
  }

  lemma SnapshotKeyIsFree(t: Tables, client: Client, id: Uuid, number: nat)
    requires SnapshotsOk(t.snapshots, t.lastSeq)
    ensures number > LastSeq(t, client) && SnapshotKeyTaken(t, client, id, number) ==> EntryId(client, id) in t.snapshots
  {
  }

  /** An applied snapshot raises its client's number to its own, and adds its row to a history that then
      keeps the client's newest rows; any other leaves claims, numbers and histories. */
  ghost predicate SnapshotRecorded(
    t: Tables, after: Tables, r: Outcome, client: Client, id: Uuid, number: nat, list: seq<Claim>, caps: Caps, now: real)
  {
    && after.events == t.events
    && (forall c :: StoredNumber(after, c) == if r.Applied? && c == client then number else StoredNumber(t, c))
    && (!r.Applied? ==> after.claims == t.claims && after.snapshots == t.snapshots)
    && (r.Applied? ==>
         KeepsNewestSnapshots(t.snapshots[EntryId(client, id) := SnapshotRow(number, list, now)],
                              after.snapshots, client, caps.snapshots))
  }

  /** What every answer to a validated snapshot records. */
  lemma SnapshotIsRecorded(
    t: Tables, client: Client, id: Uuid, number: nat, list: seq<Claim>, limit: int, caps: Caps, now: real, maximum: nat)
    requires StoreOk(t, caps) && ValidSnapshot(number, list, maximum)
    ensures var (after, r) := ApplySnapshot(t, client, id, number, list, limit, caps, now);
            SnapshotRecorded(t, after, r, client, id, number, list, caps, now)
  {
    hide ApplySnapshot;
    hide StoreOk;
    hide ReceiverJail;
    hide Admissible;
    hide TrimSnapshots;
    hide RowsOfClaims;
    hide OtherRows;
    hide KeepsNewestSnapshots;
    NotAppliedChangesNothing(t, Replace(client, id, number, list, limit), caps, now);
    if ApplySnapshot(t, client, id, number, list, limit, caps, now).1.Applied? {
      AppliedSnapshotForm(t, client, id, number, list, limit, caps, now);
      NewSnapshotHistory(t, client, id, SnapshotRow(number, list, now), caps);
    }
  }

  lemma NewSnapshotHistory(t: Tables, client: Client, id: Uuid, entry: SnapshotRow, caps: Caps)
    requires StoreOk(t, caps) && entry.number > LastSeq(t, client)
    ensures var all := t.snapshots[EntryId(client, id) := entry];
            KeepsNewestSnapshots(all, TrimSnapshots(all, client, caps.snapshots), client, caps.snapshots)
  {
    hide TrimSnapshots;
    hide KeepsNewestSnapshots;
    hide Admissible;
    TrimKeepsNewestSnapshots(t.snapshots[EntryId(client, id) := entry], client, caps.snapshots);
  }

  /** Sending an applied batch again is answered as a duplicate as long as its events are remembered, and as
      stale once one of them is forgotten; it changes nothing either way. */
  lemma RepeatIsRecognised(t: Tables, client: Client, batch: seq<Event>, limit: int, caps: Caps, now: real, maximum: nat)
    requires StoreOk(t, caps) && ValidEvents(batch, maximum)
    requires batch[|batch| - 1].number <= StoredNumber(t, client)
    requires forall e | e in batch :: IsStored(t, client, e) ==> !IsStoredOtherwise(t, client, e)
    ensures var (after, r) := ApplyEvents(t, client, batch, limit, caps, now);
            && r == (if forall e | e in batch :: IsStored(t, client, e)
                     then Duplicate(StoredNumber(t, client)) else Stale(StoredNumber(t, client)))
            && after.claims == t.claims && after.events == t.events
  {
    hide ApplyEvents;
    hide ValidEvents;
    hide SomeConflict;
    hide BatchRows;
    hide StoreOk;
    hide IsStored;
    ValidIsNotEmpty(batch, maximum);
    var _ := BatchIsAnswered(t, client, batch, limit, caps, now, maximum);
    BatchIsRecorded(t, client, batch, limit, caps, now, maximum);
  }

  lemma ValidIsNotEmpty(batch: seq<Event>, maximum: nat)
    requires ValidEvents(batch, maximum)
    ensures batch != []
  {
  }

  // ---------------------------------------------------------------- what is in force

  /** A claim counts if it is permanent and has no expiry, or one that is strictly later. */
  predicate Counts(permanent: bool, expiresAt: Option<real>, now: real) {
    permanent && match expiresAt
                 case None => true
                 case Some(end) => now < end
  }

  /** An address is to be enforced exactly if some claim on it counts. */
  predicate IsClaimed(claims: map<ClaimId, ClaimRow>, ip: Ip, now: real) {
    exists id | id in claims :: claims[id].ip == ip && Counts(claims[id].permanent, claims[id].expiresAt, now)
  }

  predicate IsClaimedBy(claims: map<ClaimId, ClaimRow>, client: Client, ip: Ip, now: real) {
    exists id | id in claims && id.client == client ::
      claims[id].ip == ip && Counts(claims[id].permanent, claims[id].expiresAt, now)
  }

  lemma EffectiveIffClaimed(claims: map<ClaimId, ClaimRow>, now: real)
    ensures forall ip :: ip in EffectiveIps(claims, now) <==> IsClaimed(claims, ip, now)
  {
    forall ip | IsClaimed(claims, ip, now)
      ensures ip in EffectiveIps(claims, now)
    {
      var id :| id in claims && claims[id].ip == ip && Counts(claims[id].permanent, claims[id].expiresAt, now);
      assert InForce(claims[id], now);
    }
    forall ip | ip in EffectiveIps(claims, now)
      ensures IsClaimed(claims, ip, now)
    {
      var id :| id in claims && InForce(claims[id], now) && claims[id].ip == ip;
      assert Counts(claims[id].permanent, claims[id].expiresAt, now);
    }
  }

  /** A temporary ban is never enforced: an address all of whose claims are not permanent is not effective. */
  lemma OnlyPermanentIsEnforced(claims: map<ClaimId, ClaimRow>, ip: Ip, now: real)
    requires forall id | id in claims && claims[id].ip == ip :: !claims[id].permanent
    ensures ip !in EffectiveIps(claims, now)
  {
    EffectiveIffClaimed(claims, now);
  }

  /** As time passes and nothing is applied, addresses only leave the effective set. */
  lemma TimeOnlyRemoves(claims: map<ClaimId, ClaimRow>, now: real, later: real)
    requires now <= later
    ensures EffectiveIps(claims, later) <= EffectiveIps(claims, now)
  {
    EffectiveIffClaimed(claims, now);
    EffectiveIffClaimed(claims, later);
    forall ip | IsClaimed(claims, ip, later)
      ensures IsClaimed(claims, ip, now)
    {
      var id :| id in claims && claims[id].ip == ip && Counts(claims[id].permanent, claims[id].expiresAt, later);
      assert Counts(claims[id].permanent, claims[id].expiresAt, now);
    }
  }
}
