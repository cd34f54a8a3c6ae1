/** One batch against the same events sent one at a time. */
module BatchLaws {
  import opened ReceiverLaws
  import opened ReceiverModel
  import opened StoreInvariant
  import opened Wire

  /** What happens before one single request: history rows are deleted, and time passes. */
  datatype Pause = Pause(now: real, events: set<EntryId>, snapshots: set<EntryId>)

  function After(t: Tables, pause: Pause): Tables {
    Prune(t, pause.events, pause.snapshots)
  }

  function ApplySingle(t: Tables, client: Client, e: Event, pause: Pause, limit: int, caps: Caps): (Tables, Outcome) {
    ApplyEvents(After(t, pause), client, [e], limit, caps, pause.now)
  }

  /** Each event as a request of its own, after a pause of its own; None as soon as one is refused. */
  function OneByOne(t: Tables, client: Client, batch: seq<Event>, pauses: seq<Pause>, limit: int, caps: Caps): Option<Tables>
    requires |pauses| == |batch|
    decreases |batch|
  {
    if batch == [] then Some(t)
    else
      var (after, r) := ApplySingle(t, client, batch[0], pauses[0], limit, caps);
      if r.Refused? then None else OneByOne(after, client, batch[1..], pauses[1..], limit, caps)
  }

  predicate WithinLimits(claims: map<ClaimId, ClaimRow>, client: Client, limit: int, caps: Caps) {
    |ClientRows(claims, client)| <= limit && |claims| <= caps.total
  }

  /** The limits hold after every non-empty prefix of the batch. */
  predicate EveryPrefixFits(claims: map<ClaimId, ClaimRow>, client: Client, batch: seq<Event>, limit: int, caps: Caps) {
    forall k | 1 <= k <= |batch| :: WithinLimits(EffectAll(claims, client, batch[..k]), client, limit, caps)
  }

  predicate IdentitiesHold(claims: map<ClaimId, ClaimRow>, client: Client, batch: seq<Event>)
    decreases |batch|
  {
    batch == [] ||
    (SameIpIfHeld(claims, ClaimId(client, batch[0].jail, batch[0].banId), batch[0].ip) &&
     IdentitiesHold(Effect(claims, client, batch[0]), client, batch[1..]))
  }

  lemma PrefixesUnfold(claims: map<ClaimId, ClaimRow>, client: Client, batch: seq<Event>, limit: int, caps: Caps)
    requires batch != []
    ensures var next := Effect(claims, client, batch[0]);
            EveryPrefixFits(claims, client, batch, limit, caps) <==>
              WithinLimits(next, client, limit, caps) && EveryPrefixFits(next, client, batch[1..], limit, caps)
  {
    hide WithinLimits;
    hide Effect;
    var next := Effect(claims, client, batch[0]);
    forall k | 1 <= k <= |batch|
      ensures EffectAll(claims, client, batch[..k]) == EffectAll(next, client, batch[1..][..k - 1])
    {
      assert batch[..k][1..] == batch[1..][..k - 1];
    }
    assert batch[1..][..0] == [];
    if EveryPrefixFits(claims, client, batch, limit, caps) {
      assert WithinLimits(EffectAll(claims, client, batch[..1]), client, limit, caps);
      forall k | 1 <= k <= |batch[1..]|
        ensures WithinLimits(EffectAll(next, client, batch[1..][..k]), client, limit, caps)
      {
        assert WithinLimits(EffectAll(claims, client, batch[..k + 1]), client, limit, caps);
      }
    }
  }

  lemma {:induction false} LoopCompletesIff(t: Tables, client: Client, batch: seq<Event>, now: real)
    requires Rising(batch) && DistinctEventIds(batch) && Fits(t.events, client, batch)
    ensures ApplyEach(t, client, batch, now).Next? <==> IdentitiesHold(t.claims, client, batch)
    decreases |batch|
  {
    if batch != [] && SameIpIfHeld(t.claims, ClaimId(client, batch[0].jail, batch[0].banId), batch[0].ip) {
      FitsTail(t, client, batch, now);
      LoopCompletesIff(ApplyOne(t, client, batch[0], now).tables, client, batch[1..], now);
    }
  }

  lemma SingleEvent(t: Tables, client: Client, e: Event, pause: Pause, limit: int, caps: Caps)
    requires e.number > LastSeq(t, client)
    ensures var (after, r) := ApplySingle(t, client, e, pause, limit, caps);
            var next := Effect(t.claims, client, e);
            && !r.Duplicate? && !r.Stale?
            && (r.Applied? ==>
                && SameIpIfHeld(t.claims, ClaimId(client, e.jail, e.banId), e.ip) && WithinLimits(next, client, limit, caps)
                && after.claims == next && LastSeq(after, client) == e.number)
  {
    hide ApplyEach;
    hide Effect;
    hide ClientRows;
    hide TrimEvents;
    var pruned := After(t, pause);
    if ApplyEvents(pruned, client, [e], limit, caps, pause.now).1.Applied? {
      AppliedBatchForm(pruned, client, [e], limit, caps, pause.now);
      OneStep(Registered(pruned, client), client, e, pause.now);
    }
  }

  lemma OneStep(t: Tables, client: Client, e: Event, now: real)
    ensures ApplyEach(t, client, [e], now) == ApplyOne(t, client, e, now)
  {
    assert [e][1..] == [];
  }

  lemma RisingTail(batch: seq<Event>, maximum: nat)
    requires ValidEvents(batch, maximum) && |batch| > 1
    ensures ValidEvents(batch[1..], maximum) && batch[1..][0].number > batch[0].number
    ensures forall e | e in batch[1..] :: e in batch && e.id != batch[0].id
  {
    hide Admissible;
    hide ReceiverJail;
  }

  // ---------------------------------------------------------------- accepted singly

  /** New events that are accepted singly have run exactly the effects of the batch, with every identity
      check passed and the limits kept after each. */
  lemma {:induction false} AcceptedSinglesRun(
    t: Tables, client: Client, batch: seq<Event>, pauses: seq<Pause>, limit: int, caps: Caps)
    requires |pauses| == |batch| > 0 && Rising(batch) && batch[0].number > LastSeq(t, client)
    requires OneByOne(t, client, batch, pauses, limit, caps).Some?
    ensures var final := OneByOne(t, client, batch, pauses, limit, caps).value;
            && final.claims == EffectAll(t.claims, client, batch)
            && LastSeq(final, client) == batch[|batch| - 1].number
            && IdentitiesHold(t.claims, client, batch)
            && EveryPrefixFits(t.claims, client, batch, limit, caps)
    decreases |batch|
  {
    hide ApplySingle;
    hide Effect;
    hide WithinLimits;
    hide EveryPrefixFits;
    SingleEvent(t, client, batch[0], pauses[0], limit, caps);
    var (after, r) := ApplySingle(t, client, batch[0], pauses[0], limit, caps);
    PrefixesUnfold(t.claims, client, batch, limit, caps);
    if |batch| > 1 {
      AcceptedSinglesRun(after, client, batch[1..], pauses[1..], limit, caps);
    } else {
      NoPrefixes(after.claims, client, limit, caps);
      assert batch[1..] == [];
    }
  }

  lemma NoPrefixes(claims: map<ClaimId, ClaimRow>, client: Client, limit: int, caps: Caps)
    ensures EveryPrefixFits(claims, client, [], limit, caps)
  {
  }

  lemma OldSingle(t: Tables, client: Client, e: Event, pause: Pause, limit: int, caps: Caps)
    requires e.number <= LastSeq(t, client)
    ensures var (after, r) := ApplySingle(t, client, e, pause, limit, caps);
            && after.claims == t.claims && LastSeq(after, client) == LastSeq(t, client)
            && (forall k | k in after.events :: k in t.events && after.events[k] == t.events[k])
            && (!r.Refused? && pause.events == {} ==> after.events == t.events && !Mismatched(t, client, e))
            && (!Mismatched(t, client, e) ==> !r.Refused?)
  {
    hide ApplyEach;
    var pruned := After(t, pause);
    assert pause.events == {} ==> pruned.events == t.events;
    assert e in [e];
    assert forall o | o in [e] :: o == e;
    assert Mismatched(pruned, client, e) ==> Mismatched(t, client, e);
  }

  lemma {:induction false} OldSinglesChangeNothing(
    t: Tables, client: Client, batch: seq<Event>, pauses: seq<Pause>, limit: int, caps: Caps)
    requires |pauses| == |batch| && forall e | e in batch :: e.number <= LastSeq(t, client)
    requires OneByOne(t, client, batch, pauses, limit, caps).Some?
    ensures var final := OneByOne(t, client, batch, pauses, limit, caps).value;
            final.claims == t.claims && LastSeq(final, client) == LastSeq(t, client)
    ensures NothingForgotten(pauses) ==> forall e | e in batch :: !Mismatched(t, client, e)
    decreases |batch|
  {
    hide ApplySingle;
    if batch != [] {
      assert batch[0] in batch;
      OldSingle(t, client, batch[0], pauses[0], limit, caps);
      var (after, r) := ApplySingle(t, client, batch[0], pauses[0], limit, caps);
      OldSinglesChangeNothing(after, client, batch[1..], pauses[1..], limit, caps);
      if NothingForgotten(pauses) {
        assert pauses[0] in pauses && NothingForgotten(pauses[1..]);
        forall e | e in batch
          ensures !Mismatched(t, client, e)
        {
          assert e == batch[0] || e in batch[1..];
          assert Mismatched(after, client, e) == Mismatched(t, client, e);
        }
      }
    }
  }

  /** No history row is deleted between the single requests. */
  predicate NothingForgotten(pauses: seq<Pause>) {
    forall p | p in pauses :: p.events == {}
  }

  predicate Crosses(t: Tables, client: Client, batch: seq<Event>)
    requires batch != []
  {
    batch[0].number <= LastSeq(t, client) < batch[|batch| - 1].number
  }

  lemma NewBatchAcceptedIff(t: Tables, client: Client, batch: seq<Event>, limit: int, caps: Caps, now: real)
    requires StoreOk(t, caps) && batch != [] && Rising(batch) && DistinctEventIds(batch)
    requires batch[0].number > LastSeq(t, client)
    ensures var (after, r) := ApplyEvents(t, client, batch, limit, caps, now);
            var final := EffectAll(t.claims, client, batch);
            && (r.Applied? <==>
                 && (forall e | e in batch :: !Known(t, client, e))
                 && IdentitiesHold(t.claims, client, batch)
                 && WithinLimits(final, client, limit, caps))
            && (r.Applied? ==> after.claims == final && LastSeq(after, client) == batch[|batch| - 1].number)
            && !r.Duplicate? && !r.Stale?
  {
    hide Known;
    hide StoreOk;
    hide ApplyEach;
    hide Effect;
    hide ClientRows;
    hide TrimEvents;
    if forall e | e in batch :: !Known(t, client, e) {
      StoreOkHasHistoryOk(t, caps);
      FreshBatchFits(t, client, batch);
      LoopCompletesIff(Registered(t, client), client, batch, now);
      MismatchedIsKnown(t, client, batch);
      if ApplyEach(Registered(t, client), client, batch, now).Next? {
        ApplyEachEffects(Registered(t, client), client, batch, now);
      }
    }
  }

  lemma MismatchedIsKnown(t: Tables, client: Client, batch: seq<Event>)
    ensures forall e | e in batch :: Mismatched(t, client, e) ==> Known(t, client, e)
  {
  }

  lemma WholePrefixFits(claims: map<ClaimId, ClaimRow>, client: Client, batch: seq<Event>, limit: int, caps: Caps)
    requires batch != [] && EveryPrefixFits(claims, client, batch, limit, caps)
    ensures WithinLimits(EffectAll(claims, client, batch), client, limit, caps)
  {
    assert batch[..|batch|] == batch;
  }

  /** The request reuses no remembered identifier: a new batch none at all, an old one only for the same
      content. */
  predicate ReusesNothing(t: Tables, client: Client, batch: seq<Event>)
    requires batch != []
  {
    if batch[0].number > LastSeq(t, client) then forall e | e in batch :: !Known(t, client, e)
    else forall e | e in batch :: !Mismatched(t, client, e)
  }

  /** A valid list that is accepted one event at a time, at any times and with any pruning in between, is
      accepted as one batch, with the same claims and the same sequence number, exactly unless the batch
      crosses the stored number or reuses an identifier that is remembered at its start. If nothing is
      pruned in between, an old list cannot fail that way. */
  lemma AcceptedSinglesAcceptedAsBatch(
    t: Tables, client: Client, batch: seq<Event>, pauses: seq<Pause>, limit: int, caps: Caps, now: real, maximum: nat)
    requires StoreOk(t, caps) && ValidEvents(batch, maximum) && |pauses| == |batch|
    requires OneByOne(t, client, batch, pauses, limit, caps).Some?
    ensures var (after, r) := ApplyEvents(t, client, batch, limit, caps, now);
            var singly := OneByOne(t, client, batch, pauses, limit, caps).value;
            && (!r.Refused? <==> !Crosses(t, client, batch) && ReusesNothing(t, client, batch))
            && (!r.Refused? ==> after.claims == singly.claims && LastSeq(after, client) == LastSeq(singly, client))
    ensures NothingForgotten(pauses) && batch[|batch| - 1].number <= LastSeq(t, client) ==> ReusesNothing(t, client, batch)
  {
    hide StoreOk;
    hide ApplyEach;
    hide Known;
    hide Mismatched;
    hide WithinLimits;
    hide EffectAll;
    hide IdentitiesHold;
    hide ReceiverJail;
    hide Admissible;
    hide Commit;
    hide OneByOne;
    hide NothingForgotten;
    if batch[0].number > LastSeq(t, client) {
      AcceptedSinglesRun(t, client, batch, pauses, limit, caps);
      WholePrefixFits(t.claims, client, batch, limit, caps);
      NewBatchAcceptedIff(t, client, batch, limit, caps, now);
    } else if batch[|batch| - 1].number <= LastSeq(t, client) {
      NoneAbove(batch, LastSeq(t, client));
      OldSinglesChangeNothing(t, client, batch, pauses, limit, caps);
    }
  }

  lemma NoneAbove(batch: seq<Event>, last: nat)
    requires batch != [] && Rising(batch) && batch[|batch| - 1].number <= last
    ensures forall e | e in batch :: e.number <= last
  {
  }

  // ---------------------------------------------------------------- accepted as a batch

  lemma PauseKeeps(t: Tables, client: Client, batch: seq<Event>, pause: Pause, caps: Caps)
    requires StoreOk(t, caps) && forall e | e in batch :: !Known(t, client, e)
    ensures var pruned := After(t, pause);
            && StoreOk(pruned, caps) && (forall e | e in batch :: !Known(pruned, client, e))
            && pruned.claims == t.claims && LastSeq(pruned, client) == LastSeq(t, client)
  {
    hide StoreOk;
    PruneKeepsStoreOk(t, pause.events, pause.snapshots, caps);
  }

  lemma SingleStaysFresh(
    t: Tables, client: Client, batch: seq<Event>, pause: Pause, limit: int, caps: Caps, maximum: nat)
    requires StoreOk(t, caps) && ValidEvents(batch, maximum) && |batch| > 1
    requires forall e | e in batch :: !Known(t, client, e)
    requires ApplySingle(t, client, batch[0], pause, limit, caps).1.Applied?
    ensures var after := ApplySingle(t, client, batch[0], pause, limit, caps).0;
            StoreOk(after, caps) && forall e | e in batch[1..] :: !Known(after, client, e)
  {
    hide StoreOk;
    hide ApplyEvents;
    hide ReceiverJail;
    hide Admissible;
    hide After;
    var e, pruned := batch[0], After(t, pause);
    assert e in batch;
    assert ValidEvents([e], 1);
    PauseKeeps(t, client, batch, pause, caps);
    ValidatedEventsKeepStoreOk(pruned, client, [e], limit, caps, pause.now, 1);
    AppliedBatchForm(pruned, client, [e], limit, caps, pause.now);
    OneStep(Registered(pruned, client), client, e, pause.now);
    RisingTail(batch, maximum);
  }

  lemma {:induction false} FreshSinglesAcceptedIff(
    t: Tables, client: Client, batch: seq<Event>, pauses: seq<Pause>, limit: int, caps: Caps, maximum: nat)
    requires StoreOk(t, caps) && ValidEvents(batch, maximum) && batch[0].number > LastSeq(t, client)
    requires |pauses| == |batch| && forall e | e in batch :: !Known(t, client, e)
    ensures OneByOne(t, client, batch, pauses, limit, caps).Some? <==>
      IdentitiesHold(t.claims, client, batch) && EveryPrefixFits(t.claims, client, batch, limit, caps)
    decreases |batch|
  {
    hide StoreOk;
    hide Known;
    hide ApplyEvents;
    hide Effect;
    hide WithinLimits;
    hide EveryPrefixFits;
    hide ReceiverJail;
    hide Admissible;
    hide After;
    var e, pruned := batch[0], After(t, pauses[0]);
    PrefixesUnfold(t.claims, client, batch, limit, caps);
    SingleEvent(t, client, e, pauses[0], limit, caps);
    PauseKeeps(t, client, batch, pauses[0], caps);
    var (after, r) := ApplySingle(t, client, e, pauses[0], limit, caps);
    SingleAcceptedIff(pruned, client, batch, limit, caps, pauses[0].now);
    if |batch| > 1 {
      if r.Applied? {
        SingleStaysFresh(t, client, batch, pauses[0], limit, caps, maximum);
        RisingTail(batch, maximum);
        FreshSinglesAcceptedIff(after, client, batch[1..], pauses[1..], limit, caps, maximum);
      }
    } else {
      assert batch[1..] == [];
      NoPrefixes(Effect(t.claims, client, e), client, limit, caps);
    }
  }

  lemma SingleAcceptedIff(t: Tables, client: Client, batch: seq<Event>, limit: int, caps: Caps, now: real)
    requires StoreOk(t, caps) && batch != [] && batch[0].number > LastSeq(t, client)
    requires forall e | e in batch :: !Known(t, client, e)
    ensures var e := batch[0];
            ApplyEvents(t, client, [e], limit, caps, now).1.Applied? <==>
              && SameIpIfHeld(t.claims, ClaimId(client, e.jail, e.banId), e.ip)
              && WithinLimits(Effect(t.claims, client, e), client, limit, caps)
  {
    hide ApplyEvents;
    hide Known;
    hide StoreOk;
    hide WithinLimits;
    hide Effect;
    var e := batch[0];
    assert e in batch;
    NewBatchAcceptedIff(t, client, [e], limit, caps, now);
    assert [e][1..] == [];
    assert EffectAll(t.claims, client, [e]) == Effect(t.claims, client, e);
    assert IdentitiesHold(t.claims, client, [e]) <==> SameIpIfHeld(t.claims, ClaimId(client, e.jail, e.banId), e.ip);
  }

  /** The converse fails only because a batch checks the limits once: an applied batch is accepted one
      event at a time, at any times and with any pruning in between, exactly when the limits also hold
      after every prefix. */
  lemma AppliedBatchAcceptedSinglyIff(
    t: Tables, client: Client, batch: seq<Event>, pauses: seq<Pause>, limit: int, caps: Caps, now: real, maximum: nat)
    requires StoreOk(t, caps) && ValidEvents(batch, maximum) && |pauses| == |batch|
    requires ApplyEvents(t, client, batch, limit, caps, now).1.Applied?
    ensures OneByOne(t, client, batch, pauses, limit, caps).Some? <==>
      EveryPrefixFits(t.claims, client, batch, limit, caps)
  {
    hide *;
    AppliedBatchForm(t, client, batch, limit, caps, now);
    ValidHasParts(batch, maximum);
    NewBatchAcceptedIff(t, client, batch, limit, caps, now);
    FreshSinglesAcceptedIff(t, client, batch, pauses, limit, caps, maximum);
  }

  lemma ValidHasParts(batch: seq<Event>, maximum: nat)
    requires ValidEvents(batch, maximum)
    ensures batch != [] && Rising(batch) && DistinctEventIds(batch)
  {
  }

  // ---------------------------------------------------------------- where the two differ

  function Unbanning(id: nat, number: nat, jail: Jail, ban: nat, ip: Ip): Event {
    Event(Uuid(id), number, Unban, jail, Uuid(ban), ip, None, None)
  }

  function Banning(id: nat, number: nat, jail: Jail, ban: nat, ip: Ip): Event {
    Event(Uuid(id), number, Ban, jail, Uuid(ban), ip, Some(true), None)
  }

  /** Time passes and nothing is deleted. */
  function At(now: real): Pause {
    Pause(now, {}, {})
  }

  lemma NothingPruned(t: Tables, now: real)
    ensures After(t, At(now)) == t
  {
    assert t.events - {} == t.events && t.snapshots - {} == t.snapshots;
  }

  lemma PairUnfolds(t: Tables, client: Client, a: Event, b: Event, first: real, second: real, limit: int, caps: Caps)
    ensures EffectAll(t.claims, client, [a, b]) == Effect(Effect(t.claims, client, a), client, b)
    ensures IdentitiesHold(t.claims, client, [a, b]) <==>
      && SameIpIfHeld(t.claims, ClaimId(client, a.jail, a.banId), a.ip)
      && SameIpIfHeld(Effect(t.claims, client, a), ClaimId(client, b.jail, b.banId), b.ip)
    ensures var (after, r) := ApplyEvents(t, client, [a], limit, caps, first);
            var (final, q) := ApplyEvents(after, client, [b], limit, caps, second);
            OneByOne(t, client, [a, b], [At(first), At(second)], limit, caps)
              == if r.Refused? || q.Refused? then None else Some(final)
  {
    hide Effect;
    hide ApplyEvents;
    hide After;
    var batch, pauses := [a, b], [At(first), At(second)];
    assert batch[1..] == [b] && [b][1..] == [] && pauses[1..] == [At(second)] && [At(second)][1..] == [];
    NothingPruned(t, first);
    var next := Effect(t.claims, client, a);
    assert IdentitiesHold(next, client, [b]) <==>
      SameIpIfHeld(next, ClaimId(client, b.jail, b.banId), b.ip) && IdentitiesHold(Effect(next, client, b), client, []);
    assert EffectAll(Effect(t.claims, client, a), client, [b]) == Effect(Effect(t.claims, client, a), client, b);
    var after := ApplyEvents(t, client, [a], limit, caps, first).0;
    NothingPruned(after, second);
    assert OneByOne(after, client, [b], [At(second)], limit, caps) ==
      var (final, q) := ApplyEvents(after, client, [b], limit, caps, second); if q.Refused? then None else Some(final);
  }

  lemma PairIsValid(a: Event, b: Event)
    requires WellFormedEvent(a) && WellFormedEvent(b) && a.number < b.number && a.id != b.id
    ensures ValidEvents([a, b], 2)
  {
    hide WellFormedEvent;
  }

  /** A client whose numbers up to `last` are in use, with at most one claim and one remembered event. */
  lemma SmallStoreIsOk(t: Tables, client: Client, last: nat, caps: Caps)
    requires t.lastSeq == map[client := last] && t.snapshots == map[]
    requires forall id | id in t.claims :: id.client == client && Admissible(t.claims[id].ip)
    requires |t.claims| <= caps.total
    requires forall k | k in t.events :: k == EntryId(client, t.events[k].event.id) && 0 < t.events[k].event.number <= last
    requires forall k, l | k in t.events && l in t.events :: k == l
    ensures StoreOk(t, caps)
  {
    hide Admissible;
  }

  lemma OldUnknownIsStale(t: Tables, client: Client, e: Event, limit: int, caps: Caps, now: real)
    requires e.number <= LastSeq(t, client) && !Known(t, client, e)
    ensures ApplyEvents(t, client, [e], limit, caps, now) == (Registered(t, client), Stale(LastSeq(t, client)))
  {
    assert e in [e];
  }

  /** Sent singly, an old event is stale and the next one is applied; as a batch they cross the stored
      number and are refused. */
  lemma CrossingBatchDiffers(client: Client, jail: Jail, ip: Ip)
    requires ReceiverJail(jail) && Admissible(ip)
    ensures var t := Tables(map[client := 2], map[], map[], map[]);
            var batch := [Unbanning(1, 1, jail, 1, ip), Banning(2, 3, jail, 2, ip)];
            && StoreOk(t, SOURCE_CAPS) && ValidEvents(batch, 2)
            && OneByOne(t, client, batch, [At(0.0), At(0.0)], 1, SOURCE_CAPS).Some?
            && ApplyEvents(t, client, batch, 1, SOURCE_CAPS, 0.0).1 == Refused(Conflict)
  {
    hide Admissible;
    hide ReceiverJail;
    hide StoreOk;
    hide ValidEvents;
    var t := Tables(map[client := 2], map[], map[], map[]);
    SmallStoreIsOk(t, client, 2, SOURCE_CAPS);
    var late, later := Unbanning(1, 1, jail, 1, ip), Banning(2, 3, jail, 2, ip);
    PairIsValid(late, later);
    assert Registered(t, client) == t;
    OldUnknownIsStale(t, client, late, 1, SOURCE_CAPS, 0.0);
    PairUnfolds(t, client, late, later, 0.0, 0.0, 1, SOURCE_CAPS);
    CrossingIsRefused(t, client, [late, later], 1, SOURCE_CAPS, 0.0);
    var row := map[ClaimId(client, jail, Uuid(2)) := ClaimRow(ip, true, None)];
    assert Effect(t.claims, client, later) == row;
    assert ClientRows(row, client) == row;
    SingleAcceptedIff(t, client, [later], 1, SOURCE_CAPS, 0.0);
  }

  lemma CrossingIsRefused(t: Tables, client: Client, batch: seq<Event>, limit: int, caps: Caps, now: real)
    requires batch != [] && Rising(batch) && Crosses(t, client, batch)
    ensures ApplyEvents(t, client, batch, limit, caps, now).1 == Refused(Conflict)
  {
  }

  lemma ReusedIsRefused(t: Tables, client: Client, batch: seq<Event>, e: Event, limit: int, caps: Caps, now: real)
    requires batch != [] && Rising(batch) && e in batch && Mismatched(t, client, e)
    ensures ApplyEvents(t, client, batch, limit, caps, now).1 == Refused(Conflict)
  {
  }

  /** A history with as many rows as the cap allows. */
  function FullHistory(client: Client, rows: nat, jail: Jail, ip: Ip): map<EntryId, EventRow> {
    map k: EntryId | k in FirstIds(client, rows) :: EventRow(Unbanning(k.id.bits, k.id.bits, jail, 1, ip), 0.0)
  }

  function FirstIds(client: Client, n: nat): (r: set<EntryId>)
    ensures |r| == n
    ensures forall k :: k in r <==> k.client == client && 1 <= k.id.bits <= n
  {
    if n == 0 then {} else FirstIds(client, n - 1) + {EntryId(client, Uuid(n))}
  }

  lemma FullStoreIsOk(client: Client, jail: Jail, ip: Ip, caps: Caps)
    ensures StoreOk(Tables(map[client := caps.events], map[], FullHistory(client, caps.events, jail, ip), map[]), caps)
  {
  }

  /** At the cap, the row of the next event evicts the oldest row. */
  lemma OldestIsEvicted(client: Client, jail: Jail, ip: Ip, cap: nat, next: EventRow)
    requires cap >= 1 && next.event.id == Uuid(cap + 1) && next.receivedAt > 0.0
    ensures var rows := FullHistory(client, cap, jail, ip)[EntryId(client, Uuid(cap + 1)) := next];
            EntryId(client, Uuid(1)) !in TrimEvents(rows, client, cap)
  {
    var rows := FullHistory(client, cap, jail, ip)[EntryId(client, Uuid(cap + 1)) := next];
    var oldest := EntryId(client, Uuid(1));
    var newer := set o | o in rows && o.client == client && NewerEvent(rows[o], rows[oldest]);
    assert newer == FirstIds(client, cap + 1) - {oldest};
  }

  /** Whatever the history cap, with a full history the first single event evicts the oldest identifier,
      which the second may then reuse; the batch still remembers it and is refused. */
  lemma EvictedIdentifierDiffers(client: Client, jail: Jail, ip: Ip, caps: Caps)
    requires ReceiverJail(jail) && Admissible(ip) && 1 <= caps.events <= MAX_NUMBER - 2
    ensures var n := caps.events;
            var t := Tables(map[client := n], map[], FullHistory(client, n, jail, ip), map[]);
            var batch := [Unbanning(n + 1, n + 1, jail, 1, ip), Unbanning(1, n + 2, jail, 1, ip)];
            && StoreOk(t, caps) && ValidEvents(batch, 2)
            && OneByOne(t, client, batch, [At(1.0), At(1.0)], 10, caps).Some?
            && ApplyEvents(t, client, batch, 10, caps, 1.0).1 == Refused(Conflict)
  {
    hide Admissible;
    hide ReceiverJail;
    hide ApplyEvents;
    hide StoreOk;
    hide ValidEvents;
    hide TrimEvents;
    hide WithinLimits;
    var n := caps.events;
    var t := Tables(map[client := n], map[], FullHistory(client, n, jail, ip), map[]);
    var first, second := Unbanning(n + 1, n + 1, jail, 1, ip), Unbanning(1, n + 2, jail, 1, ip);
    FullStoreIsOk(client, jail, ip, caps);
    PairIsValid(first, second);
    EvictingStep(t, client, first, caps);
    var next := ApplyEvents(t, client, [first], 10, caps, 1.0).0;
    OldestIsEvicted(client, jail, ip, n, EventRow(first, 1.0));
    assert !Known(next, client, second);
    SingleAccepted(next, client, second, caps);
    PairUnfolds(t, client, first, second, 1.0, 1.0, 10, caps);
    assert Mismatched(t, client, second);
    ReusedIsRefused(t, client, [first, second], second, 10, caps, 1.0);
  }

  lemma SingleAccepted(t: Tables, client: Client, e: Event, caps: Caps)
    requires StoreOk(t, caps) && t.claims == map[] && e.op.Unban? && e.number > LastSeq(t, client) && !Known(t, client, e)
    ensures ApplyEvents(t, client, [e], 10, caps, 1.0).1.Applied?
  {
    hide ApplyEvents;
    hide StoreOk;
    hide Known;
    assert ClientRows(map[], client) == map[];
    SingleAcceptedIff(t, client, [e], 10, caps, 1.0);
  }

  lemma EvictingStep(t: Tables, client: Client, e: Event, caps: Caps)
    requires StoreOk(t, caps) && t.claims == map[] && e.op.Unban? && WellFormedEvent(e)
    requires e.number > LastSeq(t, client) && !Known(t, client, e)
    ensures var (after, r) := ApplyEvents(t, client, [e], 10, caps, 1.0);
            && r.Applied? && StoreOk(after, caps) && after.claims == map[] && LastSeq(after, client) == e.number
            && after.events == TrimEvents(t.events[EntryId(client, e.id) := EventRow(e, 1.0)], client, caps.events)
  {
    hide ApplyEvents;
    hide StoreOk;
    hide WellFormedEvent;
    hide TrimEvents;
    SingleAccepted(t, client, e, caps);
    AppliedBatchForm(t, client, [e], 10, caps, 1.0);
    OneStep(Registered(t, client), client, e, 1.0);
    assert ValidEvents([e], 1);
    ValidatedEventsKeepStoreOk(t, client, [e], 10, caps, 1.0, 1);
  }

  /** At the limit, a batch may add one claim and drop another; sent singly the first is refused. */
  lemma LimitAppliesAfterWholeBatch(client: Client, jail: Jail, ip: Ip)
    requires ReceiverJail(jail) && Admissible(ip)
    ensures var held := map[ClaimId(client, jail, Uuid(1)) := ClaimRow(ip, true, None)];
            var t := Tables(map[client := 1], held, map[], map[]);
            var batch := [Banning(2, 2, jail, 2, ip), Unbanning(3, 3, jail, 1, ip)];
            && StoreOk(t, SOURCE_CAPS) && ValidEvents(batch, 2)
            && ApplyEvents(t, client, batch, 1, SOURCE_CAPS, 0.0).1 == Applied(3)
            && OneByOne(t, client, batch, [At(0.0), At(0.0)], 1, SOURCE_CAPS).None?
  {
    hide Admissible;
    hide ReceiverJail;
    var one, two := ClaimId(client, jail, Uuid(1)), ClaimId(client, jail, Uuid(2));
    var row := ClaimRow(ip, true, None);
    var held := map[one := row];
    var t := Tables(map[client := 1], held, map[], map[]);
    var ban, unban := Banning(2, 2, jail, 2, ip), Unbanning(3, 3, jail, 1, ip);
    var batch := [ban, unban];
    hide ApplyEvents;
    hide StoreOk;
    hide ValidEvents;
    hide ClientRows;
    SmallStoreIsOk(t, client, 1, SOURCE_CAPS);
    PairIsValid(ban, unban);
    PairUnfolds(t, client, ban, unban, 0.0, 0.0, 1, SOURCE_CAPS);
    var mid := map[one := row, two := row];
    BanThenUnban(client, jail, ip);
    hide Effect;
    OwnRowsOnly(map[two := row], client);
    NewBatchAcceptedIff(t, client, batch, 1, SOURCE_CAPS, 0.0);
    OwnRowsOnly(mid, client);
    TwoKeys(mid, one, two);
    SingleAcceptedIff(t, client, batch, 1, SOURCE_CAPS, 0.0);
    SingleEvent(t, client, ban, At(0.0), 1, SOURCE_CAPS);
    NothingPruned(t, 0.0);
  }

  lemma BanThenUnban(client: Client, jail: Jail, ip: Ip)
    ensures var one, two := ClaimId(client, jail, Uuid(1)), ClaimId(client, jail, Uuid(2));
            var row := ClaimRow(ip, true, None);
            && Effect(map[one := row], client, Banning(2, 2, jail, 2, ip)) == map[one := row, two := row]
            && Effect(map[one := row, two := row], client, Unbanning(3, 3, jail, 1, ip)) == map[two := row]
  {
    var one, two := ClaimId(client, jail, Uuid(1)), ClaimId(client, jail, Uuid(2));
    var row := ClaimRow(ip, true, None);
    assert map[one := row, two := row] - {one} == map[two := row];
  }

  lemma OwnRowsOnly(claims: map<ClaimId, ClaimRow>, client: Client)
    requires forall id | id in claims :: id.client == client
    ensures ClientRows(claims, client) == claims
  {
  }

  lemma TwoKeys(m: map<ClaimId, ClaimRow>, a: ClaimId, b: ClaimId)
    requires m.Keys == {a, b} && a != b
    ensures |m| == 2
  {
  }
}
