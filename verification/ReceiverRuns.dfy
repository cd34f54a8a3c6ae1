/** Runs of the receiver: requests from any clients, in any order and with any repetition, with history
    rows deleted at any time. */
module ReceiverRuns {
  import opened ReceiverLaws
  import opened ReceiverModel
  import opened Wire

  datatype Action =
    | Submit(request: Request, now: real)
    | Forget(events: set<EntryId>, snapshots: set<EntryId>)

  function After(t: Tables, a: Action, caps: Caps): Tables {
    match a
    case Submit(request, now) => Apply(t, request, caps, now).0
    case Forget(events, snapshots) => Prune(t, events, snapshots)
  }

  function RunAll(t: Tables, actions: seq<Action>, caps: Caps): Tables {
    if actions == [] then t
    else After(RunAll(t, actions[..|actions| - 1], caps), actions[|actions| - 1], caps)
  }

  /** The action is a request of the client that the state newly applies. */
  predicate NewlyApplied(t: Tables, a: Action, caps: Caps, client: Client) {
    a.Submit? && a.request.client == client && Apply(t, a.request, caps, a.now).1.Applied?
  }

  /** The client's newly applied requests, in the order in which the run applied them. */
  function AppliedIn(t: Tables, actions: seq<Action>, caps: Caps, client: Client): seq<Request> {
    if actions == [] then []
    else
      var n := |actions| - 1;
      var front := AppliedIn(t, actions[..n], caps, client);
      if NewlyApplied(RunAll(t, actions[..n], caps), actions[n], caps, client) then front + [actions[n].request]
      else front
  }

  // ---------------------------------------------------------------- replay safety

  function Fold(rows: map<ClaimId, ClaimRow>, requests: seq<Request>): map<ClaimId, ClaimRow> {
    if requests == [] then rows
    else EffectOf(Fold(rows, requests[..|requests| - 1]), requests[|requests| - 1])
  }

  predicate NonEmpty(request: Request) {
    request.Events? ==> request.events != []
  }

  predicate RangeAfter(lo: nat, requests: seq<Request>, i: int)
    requires 0 <= i < |requests|
  {
    Low(requests[i]) > if i == 0 then lo else High(requests[i - 1])
  }

  /** The sequence ranges of the requests follow each other without overlap, starting above `lo`
      and ending at `hi`. */
  ghost predicate RisingRanges(lo: nat, requests: seq<Request>, hi: nat) {
    && (forall r | r in requests :: NonEmpty(r) && Low(r) <= High(r))
    && (forall i | 0 <= i < |requests| :: RangeAfter(lo, requests, i))
    && hi == if requests == [] then lo else High(requests[|requests| - 1])
  }

  lemma StepOfClient(t: Tables, a: Action, caps: Caps, client: Client)
    ensures NewlyApplied(t, a, caps, client) ==>
              && NonEmpty(a.request) && LastSeq(t, client) < Low(a.request) <= High(a.request)
              && LastSeq(After(t, a, caps), client) == High(a.request)
              && ClientRows(After(t, a, caps).claims, client) == EffectOf(ClientRows(t.claims, client), a.request)
    ensures !NewlyApplied(t, a, caps, client) ==>
              && LastSeq(After(t, a, caps), client) == LastSeq(t, client)
              && ClientRows(After(t, a, caps).claims, client) == ClientRows(t.claims, client)
  {
    if a.Submit? {
      ApplyIsExact(t, a.request, caps, a.now, client);
    }
  }

  /** Whatever is repeated, reordered or forgotten, a client's claims and sequence number are a fold
      over the requests that were newly applied, and the sequence ranges of those strictly rise. */
  lemma {:induction false} ReplaySafety(t: Tables, actions: seq<Action>, caps: Caps, client: Client)
    ensures var final, applied := RunAll(t, actions, caps), AppliedIn(t, actions, caps, client);
            && ClientRows(final.claims, client) == Fold(ClientRows(t.claims, client), applied)
            && RisingRanges(LastSeq(t, client), applied, LastSeq(final, client))
  {
    hide Apply;
    if actions != [] {
      var n := |actions| - 1;
      ReplaySafety(t, actions[..n], caps, client);
      var before := RunAll(t, actions[..n], caps);
      StepOfClient(before, actions[n], caps, client);
      if NewlyApplied(before, actions[n], caps, client) {
        FoldAppends(ClientRows(t.claims, client), LastSeq(t, client),
                    AppliedIn(t, actions[..n], caps, client), LastSeq(before, client), actions[n].request);
      }
    }
  }

  lemma FoldAppends(rows: map<ClaimId, ClaimRow>, lo: nat, requests: seq<Request>, hi: nat, next: Request)
    requires RisingRanges(lo, requests, hi) && NonEmpty(next) && hi < Low(next) <= High(next)
    ensures Fold(rows, requests + [next]) == EffectOf(Fold(rows, requests), next)
    ensures RisingRanges(lo, requests + [next], High(next))
  {
    hide Low;
    hide High;
    hide EffectOf;
    hide NonEmpty;
    var longer := requests + [next];
    assert longer[..|requests|] == requests && longer[|requests|] == next;
    assert forall r | r in longer :: r in requests || r == next;
    forall i | 0 <= i < |longer|
      ensures RangeAfter(lo, longer, i)
    {
      if i < |requests| {
        assert RangeAfter(lo, requests, i);
      }
    }
  }

  /** The request brings the claim into being. */
  predicate Introduces(request: Request, id: ClaimId) {
    && request.client == id.client
    && match request
       case Events(_, events, _) => exists e | e in events :: e.op.Ban? && e.jail == id.jail && e.banId == id.banId
       case Replace(_, _, _, claims, _) => exists c | c in claims :: c.jail == id.jail && c.banId == id.banId
  }

  lemma {:induction false} EffectsIntroduce(rows: map<ClaimId, ClaimRow>, client: Client, events: seq<Event>, id: ClaimId)
    requires id !in rows && id in EffectAll(rows, client, events)
    ensures id.client == client && exists e | e in events :: e.op.Ban? && e.jail == id.jail && e.banId == id.banId
    decreases |events|
  {
    var next := Effect(rows, client, events[0]);
    if id in next {
      assert events[0] in events;
    } else {
      EffectsIntroduce(next, client, events[1..], id);
    }
  }

  lemma AppearsOnlyIfIntroduced(t: Tables, a: Action, caps: Caps, id: ClaimId)
    requires id !in t.claims && id in After(t, a, caps).claims
    ensures NewlyApplied(t, a, caps, id.client) && Introduces(a.request, id)
  {
    StepOfClient(t, a, caps, id.client);
    var rows := ClientRows(t.claims, id.client);
    assert id !in rows && id in ClientRows(After(t, a, caps).claims, id.client);
    match a.request
    case Events(client, events, _) => EffectsIntroduce(rows, client, events, id);
    case Replace(client, _, _, claims, _) => RowsOfClaimsAreTheClients(client, claims);
  }

  lemma {:induction false} LastSeqNeverDecreases(t: Tables, actions: seq<Action>, caps: Caps, i: nat, client: Client)
    requires i <= |actions|
    ensures LastSeq(RunAll(t, actions[..i], caps), client) <= LastSeq(RunAll(t, actions, caps), client)
    decreases |actions|
  {
    hide Apply;
    if i < |actions| {
      var n := |actions| - 1;
      LastSeqNeverDecreases(t, actions[..n], caps, i, client);
      assert actions[..n][..i] == actions[..i];
      StepOfClient(RunAll(t, actions[..n], caps), actions[n], caps, client);
    } else {
      assert actions[..i] == actions;
    }
  }

  /** A claim that is absent at some point of a run can be present later only through a later request
      that is newly applied, brings the claim in, and lies entirely above the number stored then. */
  lemma {:induction false} NoResurrection(t: Tables, actions: seq<Action>, caps: Caps, i: nat, id: ClaimId) returns (j: nat)
    requires i <= |actions|
    requires id !in RunAll(t, actions[..i], caps).claims && id in RunAll(t, actions, caps).claims
    ensures i <= j < |actions|
    ensures NewlyApplied(RunAll(t, actions[..j], caps), actions[j], caps, id.client)
    ensures Introduces(actions[j].request, id) && NonEmpty(actions[j].request)
    ensures Low(actions[j].request) > LastSeq(RunAll(t, actions[..i], caps), id.client)
    decreases |actions|
  {
    hide Apply;
    assert actions[..|actions|] == actions;
    var n := |actions| - 1;
    var before := RunAll(t, actions[..n], caps);
    assert actions[..n][..i] == actions[..i];
    if id in before.claims {
      j := NoResurrection(t, actions[..n], caps, i, id);
      assert actions[..n][..j] == actions[..j];
    } else {
      j := n;
      AppearsOnlyIfIntroduced(before, actions[n], caps, id);
      LastSeqNeverDecreases(t, actions[..n], caps, i, id.client);
      StepOfClient(before, actions[n], caps, id.client);
    }
  }
}
