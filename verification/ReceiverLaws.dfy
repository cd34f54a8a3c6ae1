/** What one request does to the receiver's tables, seen as a whole and seen by one client. */
module ReceiverLaws {
  import opened ReceiverModel
  import opened Wire

  // ---------------------------------------------------------------- raw effects

  function EffectAll(claims: map<ClaimId, ClaimRow>, client: Client, events: seq<Event>): map<ClaimId, ClaimRow>
    decreases |events|
  {
    if events == [] then claims else EffectAll(Effect(claims, client, events[0]), client, events[1..])
  }

  /** What a newly applied request makes of the rows of its client. */
  function EffectOf(rows: map<ClaimId, ClaimRow>, request: Request): map<ClaimId, ClaimRow> {
    match request
    case Events(client, events, _) => EffectAll(rows, client, events)
    case Replace(client, _, _, claims, _) => RowsOfClaims(client, claims)
  }

  /** The lowest and the highest number of a request; a batch has at least one event. */
  function Low(request: Request): nat {
    match request
    case Events(_, events, _) => if events == [] then 0 else events[0].number
    case Replace(_, _, number, _, _) => number
  }

  function High(request: Request): nat {
    match request
    case Events(_, events, _) => if events == [] then 0 else events[|events| - 1].number
    case Replace(_, _, number, _, _) => number
  }

  lemma {:induction false} RowsOfClaimsAreTheClients(client: Client, claims: seq<Claim>)
    ensures forall id | id in RowsOfClaims(client, claims) :: id.client == client
    ensures forall c | c in claims :: ClaimId(client, c.jail, c.banId) in RowsOfClaims(client, claims)
    ensures forall id | id in RowsOfClaims(client, claims) ::
              exists c | c in claims :: id == ClaimId(client, c.jail, c.banId) && RowsOfClaims(client, claims)[id] == RowOfClaim(c)
  {
    if claims != [] {
      var n := |claims| - 1;
      RowsOfClaimsAreTheClients(client, claims[..n]);
      assert claims == claims[..n] + [claims[n]];
    }
  }

  lemma {:induction false} RowsOfDistinctClaims(client: Client, claims: seq<Claim>)
    requires DistinctIdentities(claims)
    ensures |RowsOfClaims(client, claims)| == |claims|
    ensures forall c | c in claims ::
              var id := ClaimId(client, c.jail, c.banId);
              id in RowsOfClaims(client, claims) && RowsOfClaims(client, claims)[id] == RowOfClaim(c)
  {
    if claims != [] {
      var n := |claims| - 1;
      RowsOfDistinctClaims(client, claims[..n]);
      LastIdentityIsNew(client, claims);
      assert claims == claims[..n] + [claims[n]];
      forall c | c in claims
        ensures var id := ClaimId(client, c.jail, c.banId);
                id in RowsOfClaims(client, claims) && RowsOfClaims(client, claims)[id] == RowOfClaim(c)
      {
        assert c == claims[n] || c in claims[..n];
      }
    }
  }

  lemma LastIdentityIsNew(client: Client, claims: seq<Claim>)
    requires claims != [] && DistinctIdentities(claims)
    ensures var last := claims[|claims| - 1];
            ClaimId(client, last.jail, last.banId) !in RowsOfClaims(client, claims[..|claims| - 1])
  {
    RowsOfClaimsAreTheClients(client, claims[..|claims| - 1]);
  }

  // ---------------------------------------------------------------- a client's share of the rows

  lemma EffectOnShares(claims: map<ClaimId, ClaimRow>, client: Client, e: Event, other: Client)
    ensures ClientRows(Effect(claims, client, e), client) == Effect(ClientRows(claims, client), client, e)
    ensures other != client ==> ClientRows(Effect(claims, client, e), other) == ClientRows(claims, other)
  {
  }

  lemma {:induction false} EffectAllOnShares(
    claims: map<ClaimId, ClaimRow>, client: Client, events: seq<Event>, other: Client)
    ensures ClientRows(EffectAll(claims, client, events), client) == EffectAll(ClientRows(claims, client), client, events)
    ensures other != client ==> ClientRows(EffectAll(claims, client, events), other) == ClientRows(claims, other)
    decreases |events|
  {
    if events != [] {
      EffectOnShares(claims, client, events[0], other);
      EffectAllOnShares(Effect(claims, client, events[0]), client, events[1..], other);
    }
  }

  lemma ReplacedShares(claims: map<ClaimId, ClaimRow>, client: Client, list: seq<Claim>, other: Client)
    ensures var rows := OtherRows(claims, client) + RowsOfClaims(client, list);
            && ClientRows(rows, client) == RowsOfClaims(client, list)
            && (other != client ==> ClientRows(rows, other) == ClientRows(claims, other))
  {
    RowsOfClaimsAreTheClients(client, list);
  }

  // ---------------------------------------------------------------- a batch

  function HistoryOf(client: Client, events: seq<Event>, now: real): map<EntryId, EventRow> {
    if events == [] then map[]
    else
      var last := events[|events| - 1];
      HistoryOf(client, events[..|events| - 1], now)[EntryId(client, last.id) := EventRow(last, now)]
  }

  /** If the loop over a batch completes, it has run exactly the raw effects, in order. */
  lemma {:induction false} ApplyEachEffects(t: Tables, client: Client, events: seq<Event>, now: real)
    requires ApplyEach(t, client, events, now).Next?
    ensures var t1 := ApplyEach(t, client, events, now).tables;
            && t1.claims == EffectAll(t.claims, client, events)
            && t1.lastSeq == t.lastSeq && t1.snapshots == t.snapshots
    decreases |events|
  {
    if events != [] {
      ApplyEachEffects(ApplyOne(t, client, events[0], now).tables, client, events[1..], now);
    }
  }

  /** The shape of a newly applied batch. */
  lemma AppliedBatchForm(t: Tables, client: Client, events: seq<Event>, limit: int, caps: Caps, now: real)
    requires ApplyEvents(t, client, events, limit, caps, now).1.Applied?
    ensures events != [] && Rising(events) && LastSeq(t, client) < events[0].number
    ensures forall e | e in events :: !Known(t, client, e)
    ensures var s := ApplyEach(Registered(t, client), client, events, now);
            && s.Next? && |s.tables.claims| <= caps.total && |ClientRows(s.tables.claims, client)| <= limit
            && var number := events[|events| - 1].number;
            && ApplyEvents(t, client, events, limit, caps, now).1 == Applied(number)
            && ApplyEvents(t, client, events, limit, caps, now).0 == s.tables.(
                 lastSeq := s.tables.lastSeq[client := number],
                 events := TrimEvents(s.tables.events, client, caps.events))
  {
    hide ApplyEach;
    hide TrimEvents;
    hide ClientRows;
  }

  /** The shape of a newly applied snapshot. */
  lemma AppliedSnapshotForm(
    t: Tables, client: Client, id: Uuid, number: nat, claims: seq<Claim>, limit: int, caps: Caps, now: real)
    requires ApplySnapshot(t, client, id, number, claims, limit, caps, now).1.Applied?
    ensures DistinctIdentities(claims) && |claims| <= limit && LastSeq(t, client) < number
    ensures !SnapshotKeyTaken(t, client, id, number) && !Rebinds(t, client, claims)
    ensures var rows := OtherRows(t.claims, client) + RowsOfClaims(client, claims);
            && |rows| <= caps.total
            && ApplySnapshot(t, client, id, number, claims, limit, caps, now) ==
                 (Replaced(t, client, rows, id, SnapshotRow(number, claims, now), caps), Applied(number))
  {
    hide Replaced;
    hide RowsOfClaims;
    hide OtherRows;
  }

  /** Unless a request is newly applied, no claim, history row or number changes; if it is refused, no
      table changes at all. */
  lemma NotAppliedChangesNothing(t: Tables, request: Request, caps: Caps, now: real)
    ensures var (after, r) := Apply(t, request, caps, now);
            && (r.Refused? ==> after == t)
            && (!r.Applied? ==> after == t || after == Registered(t, request.client))
            && (r.Duplicate? || r.Stale? ==> r.last == LastSeq(t, request.client) >= High(request))
  {
    hide ApplyEach;
    hide Replaced;
    hide RowsOfClaims;
    hide OtherRows;
    hide TrimEvents;
    hide ClientRows;
  }

  lemma BatchChangesShare(t: Tables, client: Client, events: seq<Event>, limit: int, caps: Caps, now: real, other: Client)
    requires ApplyEvents(t, client, events, limit, caps, now).1.Applied?
    ensures var after := ApplyEvents(t, client, events, limit, caps, now).0;
            && ClientRows(after.claims, client) == EffectAll(ClientRows(t.claims, client), client, events)
            && |after.claims| <= caps.total && |ClientRows(after.claims, client)| <= limit
            && (other != client ==> ClientRows(after.claims, other) == ClientRows(t.claims, other))
            && after.lastSeq == t.lastSeq[client := events[|events| - 1].number]
            && after.snapshots == t.snapshots
  {
    hide ApplyEvents;
    hide ApplyEach;
    hide TrimEvents;
    hide ClientRows;
    AppliedBatchForm(t, client, events, limit, caps, now);
    ApplyEachEffects(Registered(t, client), client, events, now);
    EffectAllOnShares(t.claims, client, events, other);
  }

  lemma SnapshotReplacesShare(
    t: Tables, client: Client, id: Uuid, number: nat, claims: seq<Claim>, limit: int, caps: Caps, now: real,
    other: Client)
    requires ApplySnapshot(t, client, id, number, claims, limit, caps, now).1.Applied?
    ensures var after := ApplySnapshot(t, client, id, number, claims, limit, caps, now).0;
            && ClientRows(after.claims, client) == RowsOfClaims(client, claims)
            && |after.claims| <= caps.total && |ClientRows(after.claims, client)| <= limit
            && (other != client ==> ClientRows(after.claims, other) == ClientRows(t.claims, other))
            && after.lastSeq == t.lastSeq[client := number]
            && after.events == t.events
  {
    hide ApplySnapshot;
    hide ClientRows;
    hide OtherRows;
    hide TrimSnapshots;
    AppliedSnapshotForm(t, client, id, number, claims, limit, caps, now);
    ReplacedShares(t.claims, client, claims, other);
    RowsOfDistinctClaims(client, claims);
  }

  /** One request: if it is newly applied, all its numbers are above the stored one, its client's rows
      are the raw effects on what they were, the limits hold, and other clients keep rows and numbers;
      otherwise all clients do. */
  lemma ApplyIsExact(t: Tables, request: Request, caps: Caps, now: real, other: Client)
    ensures var (after, r) := Apply(t, request, caps, now);
            var client := request.client;
            && (!r.Applied? ==> after.claims == t.claims && LastSeq(after, client) == LastSeq(t, client))
            && (r.Applied? ==>
                && (request.Events? ==> request.events != [] && Rising(request.events))
                && LastSeq(t, client) < Low(request) <= High(request)
                && LastSeq(after, client) == High(request) == r.last
                && ClientRows(after.claims, client) == EffectOf(ClientRows(t.claims, client), request)
                && |after.claims| <= caps.total && |ClientRows(after.claims, client)| <= request.limit)
            && (other != client ==>
                && ClientRows(after.claims, other) == ClientRows(t.claims, other)
                && LastSeq(after, other) == LastSeq(t, other))
  {
    hide ApplyEvents;
    hide ApplySnapshot;
    hide ClientRows;
    hide EffectAll;
    hide RowsOfClaims;
    NotAppliedChangesNothing(t, request, caps, now);
    if Apply(t, request, caps, now).1.Applied? {
      match request
      case Events(client, events, limit) =>
        AppliedBatchForm(t, client, events, limit, caps, now);
        BatchChangesShare(t, client, events, limit, caps, now, other);
      case Replace(client, id, number, claims, limit) =>
        AppliedSnapshotForm(t, client, id, number, claims, limit, caps, now);
        SnapshotReplacesShare(t, client, id, number, claims, limit, caps, now, other);
    }
  }
}
