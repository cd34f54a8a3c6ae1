/** History is for audit and for answering repeats; it never decides which claims hold. */
module HistoryLaws {
  import opened ReceiverLaws
  import opened ReceiverModel
  import opened ReceiverRuns
  import opened StoreInvariant
  import opened Wire

  /** Everything but the history. */
  predicate SameState(t: Tables, u: Tables) {
    t.lastSeq == u.lastSeq && t.claims == u.claims
  }

  /** The same answer, except that a forgotten repeat is called stale instead of duplicate. */
  predicate SameAnswer(r: Outcome, q: Outcome) {
    r == q || (!r.Refused? && !q.Refused? && !r.Applied? && !q.Applied? && r.last == q.last)
  }

  /** The request does not reuse a remembered identifier for other content. */
  predicate Consistent(t: Tables, request: Request) {
    match request
    case Events(client, events, _) => forall e | e in events :: !Mismatched(t, client, e)
    case Replace(client, id, number, claims, _) =>
      var key := EntryId(client, id);
      key in t.snapshots ==> t.snapshots[key].number == number && t.snapshots[key].claims == claims
  }

  lemma {:induction false} LoopIgnoresHistory(t: Tables, u: Tables, client: Client, batch: seq<Event>, now: real)
    requires SameState(t, u) && Rising(batch) && DistinctEventIds(batch)
    requires Fits(t.events, client, batch) && Fits(u.events, client, batch)
    ensures var r, q := ApplyEach(t, client, batch, now), ApplyEach(u, client, batch, now);
            (r.Next? <==> q.Next?) && (r.Next? ==> SameState(r.tables, q.tables)) && (r.Stop? ==> r == q == Stop(Conflict))
    decreases |batch|
  {
    if batch != [] && SameIpIfHeld(t.claims, ClaimId(client, batch[0].jail, batch[0].banId), batch[0].ip) {
      FitsTail(t, client, batch, now);
      FitsTail(u, client, batch, now);
      LoopIgnoresHistory(ApplyOne(t, client, batch[0], now).tables, ApplyOne(u, client, batch[0], now).tables,
                         client, batch[1..], now);
    }
  }

  lemma NewBatchIsUnknown(t: Tables, client: Client, batch: seq<Event>)
    requires HistoryOk(t) && Rising(batch) && batch != [] && batch[0].number > LastSeq(t, client)
    requires forall e | e in batch :: !Mismatched(t, client, e)
    ensures forall e | e in batch :: !Known(t, client, e)
    ensures Fits(t.events, client, batch)
  {
    forall e | e in batch
      ensures !Known(t, client, e)
    {
      var i :| 0 <= i < |batch| && batch[i] == e;
    }
    FreshBatchFits(t, client, batch);
  }

  lemma BatchIgnoresHistory(t: Tables, u: Tables, client: Client, batch: seq<Event>, limit: int, caps: Caps, now: real)
    requires SameState(t, u) && HistoryOk(t) && HistoryOk(u) && Rising(batch) && DistinctEventIds(batch)
    requires forall e | e in batch :: !Mismatched(t, client, e) && !Mismatched(u, client, e)
    ensures var (t1, r) := ApplyEvents(t, client, batch, limit, caps, now);
            var (u1, q) := ApplyEvents(u, client, batch, limit, caps, now);
            SameState(t1, u1) && SameAnswer(r, q)
  {
    hide HistoryOk;
    hide Known;
    hide Mismatched;
    hide ApplyEach;
    hide TrimEvents;
    hide ClientRows;
    hide Fits;
    if batch != [] && batch[0].number > LastSeq(t, client) {
      NewBatchIsUnknown(t, client, batch);
      NewBatchIsUnknown(u, client, batch);
      LoopIgnoresHistory(Registered(t, client), Registered(u, client), client, batch, now);
    }
  }

  lemma SnapshotIgnoresHistory(
    t: Tables, u: Tables, client: Client, id: Uuid, number: nat, list: seq<Claim>, limit: int, caps: Caps, now: real)
    requires SameState(t, u) && HistoryOk(t) && HistoryOk(u)
    requires Consistent(t, Replace(client, id, number, list, limit)) && Consistent(u, Replace(client, id, number, list, limit))
    ensures var (t1, r) := ApplySnapshot(t, client, id, number, list, limit, caps, now);
            var (u1, q) := ApplySnapshot(u, client, id, number, list, limit, caps, now);
            SameState(t1, u1) && SameAnswer(r, q)
  {
    hide TrimSnapshots;
    hide RowsOfClaims;
    hide OtherRows;
    hide HistoryOk;
    hide SnapshotKeyTaken;
    hide DistinctIdentities;
    NewSnapshotIsUnknown(t, client, id, number);
    NewSnapshotIsUnknown(u, client, id, number);
    assert Rebinds(t, client, list) == Rebinds(u, client, list);
  }

  lemma NewSnapshotIsUnknown(t: Tables, client: Client, id: Uuid, number: nat)
    requires HistoryOk(t)
    ensures number > LastSeq(t, client) ==>
              !SnapshotKeyTaken(t, client, id, number) || (EntryId(client, id) in t.snapshots
                && t.snapshots[EntryId(client, id)].number != number)
  {
  }

  /** Two stores that differ only in what history they remember do the same with a validated request
      that reuses no remembered identifier for other content. */
  lemma RequestIgnoresHistory(t: Tables, u: Tables, request: Request, caps: Caps, now: real, maximum: nat)
    requires SameState(t, u) && HistoryOk(t) && HistoryOk(u) && Valid(request, maximum)
    requires Consistent(t, request) && Consistent(u, request)
    ensures var (t1, r) := Apply(t, request, caps, now);
            var (u1, q) := Apply(u, request, caps, now);
            SameState(t1, u1) && SameAnswer(r, q)
  {
    hide ApplyEvents;
    hide ApplySnapshot;
    hide HistoryOk;
    hide Mismatched;
    hide Admissible;
    hide ReceiverJail;
    match request
    case Events(client, batch, limit) => BatchIgnoresHistory(t, u, client, batch, limit, caps, now);
    case Replace(client, id, number, list, limit) =>
      SnapshotIgnoresHistory(t, u, client, id, number, list, limit, caps, now);
  }

  // ---------------------------------------------------------------- runs

  /** What each identifier was issued for. */
  datatype Issued = Issued(events: map<EntryId, Event>, snapshots: map<EntryId, (nat, seq<Claim>)>)

  predicate UsesIssued(request: Request, issued: Issued) {
    match request
    case Events(client, events, _) =>
      forall e | e in events :: EntryId(client, e.id) in issued.events && issued.events[EntryId(client, e.id)] == e
    case Replace(client, id, number, claims, _) =>
      EntryId(client, id) in issued.snapshots && issued.snapshots[EntryId(client, id)] == (number, claims)
  }

  ghost predicate RemembersIssued(t: Tables, issued: Issued) {
    && (forall k | k in t.events :: k in issued.events && issued.events[k] == t.events[k].event)
    && (forall k | k in t.snapshots ::
          k in issued.snapshots && issued.snapshots[k] == (t.snapshots[k].number, t.snapshots[k].claims))
  }

  ghost predicate ProperRun(actions: seq<Action>, issued: Issued, maximum: nat) {
    forall a | a in actions && a.Submit? :: Valid(a.request, maximum) && UsesIssued(a.request, issued)
  }

  lemma IssuedIsConsistent(t: Tables, request: Request, issued: Issued)
    requires RemembersIssued(t, issued) && UsesIssued(request, issued)
    ensures Consistent(t, request)
  {
  }

  /** The only history rows a validated request can add are its own. */
  lemma HistoryOnlyAdds(t: Tables, request: Request, caps: Caps, now: real, maximum: nat)
    requires StoreOk(t, caps) && Valid(request, maximum)
    ensures var after := Apply(t, request, caps, now).0;
            && (forall k | k in after.events :: (k in t.events && after.events[k] == t.events[k])
                 || (request.Events? && AddsEvent(request.client, request.events, k, after.events[k].event)))
            && (forall k | k in after.snapshots :: (k in t.snapshots && after.snapshots[k] == t.snapshots[k])
                 || (request.Replace? && k == EntryId(request.client, request.id)
                     && after.snapshots[k].number == request.number && after.snapshots[k].claims == request.claims))
  {
    hide ApplyEvents;
    hide ApplySnapshot;
    hide ApplyEach;
    hide StoreOk;
    hide ReceiverJail;
    hide Admissible;
    NotAppliedChangesNothing(t, request, caps, now);
    if Apply(t, request, caps, now).1.Applied? {
      match request
      case Events(client, batch, limit) =>
        AppliedBatchForm(t, client, batch, limit, caps, now);
        StoreOkHasHistoryOk(t, caps);
        FreshBatchFits(t, client, batch);
        LoopMeetsNoKeyViolation(Registered(t, client), client, batch, now);
        ApplyEachEffects(Registered(t, client), client, batch, now);
      case Replace(client, id, number, list, limit) =>
        AppliedSnapshotForm(t, client, id, number, list, limit, caps, now);
    }
  }

  ghost predicate AddsEvent(client: Client, batch: seq<Event>, k: EntryId, event: Event) {
    event in batch && k == EntryId(client, event.id)
  }

  lemma StillRemembersIssued(t: Tables, request: Request, caps: Caps, now: real, maximum: nat, issued: Issued)
    requires StoreOk(t, caps) && RemembersIssued(t, issued) && UsesIssued(request, issued) && Valid(request, maximum)
    ensures RemembersIssued(Apply(t, request, caps, now).0, issued)
  {
    hide Apply;
    hide StoreOk;
    hide Valid;
    HistoryOnlyAdds(t, request, caps, now, maximum);
  }

  function WithoutForgetting(actions: seq<Action>): seq<Action> {
    if actions == [] then []
    else
      var front, last := WithoutForgetting(actions[..|actions| - 1]), actions[|actions| - 1];
      if last.Forget? then front else front + [last]
  }

  /** Deleting any history rows at any points of a run leaves every claim and every sequence number as
      they would be had nothing been deleted. */
  lemma {:induction false} ForgettingIsHarmless(actions: seq<Action>, caps: Caps, issued: Issued, maximum: nat)
    requires ProperRun(actions, issued, maximum)
    ensures var t, u := RunAll(EMPTY, actions, caps), RunAll(EMPTY, WithoutForgetting(actions), caps);
            && SameState(t, u)
            && StoreOk(t, caps) && StoreOk(u, caps) && RemembersIssued(t, issued) && RemembersIssued(u, issued)
  {
    hide Apply;
    hide StoreOk;
    hide HistoryOk;
    hide Prune;
    hide Valid;
    hide UsesIssued;
    hide RemembersIssued;
    if actions == [] {
      EmptyIsOk(caps);
      EmptyRemembersIssued(issued);
    } else {
      var n := |actions| - 1;
      ForgettingIsHarmless(actions[..n], caps, issued, maximum);
      var t, rest := RunAll(EMPTY, actions[..n], caps), WithoutForgetting(actions[..n]);
      var u := RunAll(EMPTY, rest, caps);
      match actions[n]
      case Forget(events, snapshots) =>
        PruneKeepsStoreOk(t, events, snapshots, caps);
        PruneRemembersIssued(t, events, snapshots, issued);
      case Submit(request, now) =>
        assert actions[n] in actions;
        assert (rest + [actions[n]])[..|rest|] == rest;
        BothStepsAgree(t, u, request, caps, now, maximum, issued);
    }
  }

  lemma EmptyRemembersIssued(issued: Issued)
    ensures RemembersIssued(EMPTY, issued)
  {
  }

  lemma PruneRemembersIssued(t: Tables, events: set<EntryId>, snapshots: set<EntryId>, issued: Issued)
    requires RemembersIssued(t, issued)
    ensures RemembersIssued(Prune(t, events, snapshots), issued) && SameState(t, Prune(t, events, snapshots))
  {
  }

  lemma BothStepsAgree(
    t: Tables, u: Tables, request: Request, caps: Caps, now: real, maximum: nat, issued: Issued)
    requires SameState(t, u) && StoreOk(t, caps) && StoreOk(u, caps)
    requires RemembersIssued(t, issued) && RemembersIssued(u, issued)
    requires Valid(request, maximum) && UsesIssued(request, issued)
    ensures var t1, u1 := Apply(t, request, caps, now).0, Apply(u, request, caps, now).0;
            && SameState(t1, u1) && StoreOk(t1, caps) && StoreOk(u1, caps)
            && RemembersIssued(t1, issued) && RemembersIssued(u1, issued)
  {
    hide *;
    StoreOkHasHistoryOk(t, caps);
    StoreOkHasHistoryOk(u, caps);
    IssuedIsConsistent(t, request, issued);
    IssuedIsConsistent(u, request, issued);
    RequestIgnoresHistory(t, u, request, caps, now, maximum);
    ValidRequestsKeepStoreOk(t, request, caps, now, maximum);
    ValidRequestsKeepStoreOk(u, request, caps, now, maximum);
    StillRemembersIssued(t, request, caps, now, maximum, issued);
    StillRemembersIssued(u, request, caps, now, maximum, issued);
  }
}
