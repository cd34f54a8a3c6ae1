/** The delivery worker and the snapshot command, the two loops that drive the sender's store
    (client/sender.py). */
module Workers {
  import O = SenderOutcomes
  import opened SenderLaws
  import opened SenderModel
  import R = SenderRuns
  import opened SenderStores
  import opened Wire

  // ---------------------------------------------------------------- the worker

  /** The state after an attempt to send a row. */
  function Attempted(s: Sender, id: nat, ok: bool, when: real, initial: real, maximum: real): Sender
    requires id in s.outbox
  {
    if ok then MarkDelivered(s, id, when).(lastError := None)
    else
      var attempts := s.outbox[id].attempts + 1;
      MarkRetry(s, id, attempts, when + Backoff(initial, maximum, attempts)).(lastError := Some("delivery failure"))
  }

  /** One turn of the worker: nothing is due, or the due row is sent and its outcome recorded. */
  ghost predicate Turn(
    before: Sender, after: Sender, sent: Option<Payload>, ok: bool, when: real, initial: real, maximum: real)
  {
    match sent
    case None => after == before && forall id :: !IsDue(before, id, when)
    case Some(payload) =>
      exists id :: IsDue(before, id, when) && payload == before.outbox[id].payload
                   && after == Attempted(before, id, ok, when, initial, maximum)
  }

  class Worker {
    const store: SenderStore
    const initialBackoff: real
    const maxBackoff: real

    constructor (store: SenderStore, initialBackoff: real, maxBackoff: real)
      ensures this.store == store && this.initialBackoff == initialBackoff && this.maxBackoff == maxBackoff
    {
      this.store, this.initialBackoff, this.maxBackoff := store, initialBackoff, maxBackoff;
    }

    /** `ok` is what the transport reports for the request, if there is one. */
    method ProcessOnce(when: real, ok: bool) returns (sent: Option<Payload>, delivered: bool)
      modifies store
      ensures Turn(old(store.State()), store.State(), sent, ok, when, initialBackoff, maxBackoff)
      ensures delivered == (sent.Some? && ok)
    {
      var due := store.NextDue(when);
      if due.None? {
        return None, false;
      }
      var id := due.value;
      var row := store.outbox[id];
      if ok {
        store.MarkDelivered(id, when);
        store.ClearLastError();
      } else {
        var attempts := row.attempts + 1;
        store.MarkRetry(id, attempts, when, Backoff(initialBackoff, maxBackoff, attempts));
        store.SetLastError("delivery failure");
      }
      sent, delivered := Some(row.payload), ok;
    }
  }

  // ---------------------------------------------------------------- backoff

  /** The wait before its cap. */
  function Uncapped(initial: real, attempts: nat): real
    requires attempts >= 1
  {
    initial * Doubled(if attempts - 1 < 20 then attempts - 1 else 20)
  }

  lemma UncappedDoubles(initial: real, attempts: nat)
    requires attempts >= 1 && 0.0 <= initial
    ensures initial <= Uncapped(initial, attempts)
    ensures attempts == 1 ==> Uncapped(initial, attempts) == initial
    ensures Uncapped(initial, attempts + 1) == (if attempts <= 20 then 2.0 else 1.0) * Uncapped(initial, attempts)
  {
    var n := if attempts - 1 < 20 then attempts - 1 else 20;
    Scaled(initial, Doubled(n));
    if attempts <= 20 {
      assert Doubled(n + 1) == 2.0 * Doubled(n);
      assert initial * Doubled(n + 1) == 2.0 * (initial * Doubled(n));
    }
  }

  /** The wait doubles with every failure until it reaches the cap or the twenty-first failure, and
      never shrinks. */
  lemma BackoffDoublesUpToCap(initial: real, maximum: real, attempts: nat)
    requires attempts >= 1 && 0.0 <= initial && 0.0 <= maximum
    ensures var wait := Backoff(initial, maximum, attempts);
            && (if initial < maximum then initial else maximum) <= wait <= maximum
            && (attempts == 1 ==> wait == if initial < maximum then initial else maximum)
            && wait <= Backoff(initial, maximum, attempts + 1)
            && Backoff(initial, maximum, attempts + 1) ==
                 (if attempts > 20 then wait else if 2.0 * wait < maximum then 2.0 * wait else maximum)
  {
    UncappedDoubles(initial, attempts);
    BackoffIsCapped(initial, maximum, attempts);
    BackoffIsCapped(initial, maximum, attempts + 1);
    hide Backoff;
    hide Uncapped;
  }

  lemma BackoffIsCapped(initial: real, maximum: real, attempts: nat)
    requires attempts >= 1
    ensures Backoff(initial, maximum, attempts) == Capped(Uncapped(initial, attempts), maximum)
  {
  }

  lemma Scaled(x: real, factor: real)
    requires x >= 0.0 && factor >= 1.0
    ensures x * factor >= x
  {
    assert x * factor == x + x * (factor - 1.0);
  }

  // ---------------------------------------------------------------- order of delivery

  lemma ErrorIsApart(s: Sender, log: seq<Payload>, error: Option<string>)
    requires Inv(s, log)
    ensures var other := s.(lastError := error);
            Inv(other, log) && Pending(other) == Pending(s) && Base(other) == Base(s)
  {
    var other := s.(lastError := error);
    assert Pending(other) == Pending(s);
  }

  lemma DueRow(s: Sender, log: seq<Payload>, id: nat, when: real)
    requires Inv(s, log) && IsDue(s, id, when)
    ensures 0 <= Base(s) && id == Base(s) + 1 <= |log| && s.outbox[id].payload == log[id - 1]
  {
    DueIsWindowHead(s, log, id, when);
  }

  lemma AcknowledgedMovesOn(s: Sender, log: seq<Payload>, id: nat, when: real)
    requires Inv(s, log) && IsDue(s, id, when)
    ensures var after := Attempted(s, id, true, when, 0.0, 0.0);
            Inv(after, log) && Base(after) == Base(s) + 1
  {
    hide ClaimsOk;
    hide OutboxOk;
    DueIsWindowHead(s, log, id, when);
    DeliveredKeepsInv(s, log, id, when);
    ErrorIsApart(MarkDelivered(s, id, when), log, None);
  }

  lemma FailureHoldsBack(s: Sender, log: seq<Payload>, id: nat, when: real, initial: real, maximum: real)
    requires Inv(s, log) && IsDue(s, id, when)
    ensures var after := Attempted(s, id, false, when, initial, maximum);
            && Inv(after, log) && Base(after) == Base(s)
            && id in after.outbox && after.outbox[id].attempts == s.outbox[id].attempts + 1
            && after.outbox[id].availableAt == when + Backoff(initial, maximum, s.outbox[id].attempts + 1)
  {
    hide ClaimsOk;
    hide OutboxOk;
    hide Backoff;
    var attempts := s.outbox[id].attempts + 1;
    var until := when + Backoff(initial, maximum, attempts);
    RetryKeepsInv(s, log, id, attempts, until);
    ErrorIsApart(MarkRetry(s, id, attempts, until), log, Some("delivery failure"));
  }

  lemma NothingBeforeHead(s: Sender, log: seq<Payload>, id: nat, t: real)
    requires Inv(s, log) && id == Base(s) + 1 && id in s.outbox && t < s.outbox[id].availableAt
    ensures forall other :: !IsDue(s, other, t)
  {
    forall other
      ensures !IsDue(s, other, t)
    {
      if IsDue(s, other, t) {
        DueIsWindowHead(s, log, other, t);
      }
    }
  }

  /** Recording an outcome touches the sent row and no other. */
  lemma AttemptedRow(s: Sender, id: nat, ok: bool, when: real, initial: real, maximum: real)
    requires id in Pending(s)
    ensures var attempts := s.outbox[id].attempts + 1;
            Attempted(s, id, ok, when, initial, maximum).outbox == s.outbox[id :=
              if ok then s.outbox[id].(deliveredAt := Some(when))
              else s.outbox[id].(attempts := attempts, availableAt := when + Backoff(initial, maximum, attempts))]
  {
    hide Backoff;
  }

  /** A turn sends exactly the first undelivered payload, moves on only when it was acknowledged, and
      after a failure nothing at all is due until the wait is over. */
  lemma TurnSendsWindowHead(
    s: Sender, log: seq<Payload>, after: Sender, sent: Option<Payload>, ok: bool, when: real, initial: real, maximum: real)
    requires Inv(s, log) && Turn(s, after, sent, ok, when, initial, maximum)
    ensures Inv(after, log)
    ensures sent.Some? ==> 0 <= Base(s) < |log| && sent.value == log[Base(s)]
    ensures Base(after) == Base(s) + if sent.Some? && ok then 1 else 0
    ensures sent.Some? ==> after.lastError == if ok then None else Some("delivery failure")
    ensures sent.Some? && !ok ==>
      var head: int := Base(s) + 1;
      && head in s.outbox && head in after.outbox
      && var until := when + Backoff(initial, maximum, s.outbox[head].attempts + 1);
      && after.outbox[head] == s.outbox[head].(attempts := s.outbox[head].attempts + 1, availableAt := until)
      && forall other, t | t < until :: !IsDue(after, other, t)
    ensures sent.Some? ==>
      var head: int := Base(s) + 1;
      && head in s.outbox && head in after.outbox
      && (ok ==> after.outbox[head] == s.outbox[head].(deliveredAt := Some(when)))
      && after.outbox == s.outbox[head := after.outbox[head]]
  {
    hide Inv;
    hide Backoff;
    hide Base;
    hide MarkDelivered;
    hide MarkRetry;
    if sent.Some? {
      var id :| IsDue(s, id, when) && sent.value == s.outbox[id].payload
                && after == Attempted(s, id, ok, when, initial, maximum);
      DueRow(s, log, id, when);
      AttemptedRow(s, id, ok, when, initial, maximum);
      if ok {
        AcknowledgedMovesOn(s, log, id, when);
      } else {
        FailureHoldsBack(s, log, id, when, initial, maximum);
        forall other, t | t < after.outbox[id].availableAt
          ensures !IsDue(after, other, t)
        {
          NothingBeforeHead(after, log, id, t);
        }
      }
    }
  }

  // ---------------------------------------------------------------- turns and other moves, interleaved

  datatype Action =
    | Serve(sent: Option<Payload>, ok: bool, when: real)
    | Other(move: R.Move)

  /** A worker turn, or a hook, a snapshot or a restart in another process. */
  ghost predicate Acts(n: R.Node, a: Action, after: R.Node, initial: real, maximum: real) {
    match a
    case Serve(sent, ok, when) => after.log == n.log && Turn(n.sender, after.sender, sent, ok, when, initial, maximum)
    case Other(move) => (move.Hook? || move.Reconcile? || move.Reopened?) && after == R.Next(n, move)
  }

  lemma EmitKeepsBase(s: Sender, log: seq<Payload>, claims: map<Key, Row>, payload: Payload, when: real)
    requires Inv(s, log)
    ensures Base(Emit(s, claims, payload, when).0) == Base(s)
  {
    EmitKeepsRows(s, log, claims, payload, when);
    EmitKeepsWindow(s, claims, payload, when);
  }

  lemma OtherMovesKeepBase(n: R.Node, move: R.Move)
    requires R.NodeInv(n) && (move.Hook? || move.Reconcile? || move.Reopened?)
    ensures Base(R.Next(n, move).sender) == Base(n.sender)
  {
    hide Inv;
    hide Base;
    hide Emit;
    hide UpsertAll;
    hide Pending;
    hide PruneDelivered;
    hide Admissible;
    hide SenderJail;
    hide Upsert;
    hide FreshId;
    var s := n.sender;
    match move
    case Hook(op, jail, ip, banId, eventId, when) =>
      forall claims, payload
        ensures Base(Emit(s, claims, payload, when).0) == Base(s)
      {
        EmitKeepsBase(s, n.log, claims, payload, when);
      }
    case Reconcile(wanted, expected, id, when) =>
      forall claims, payload
        ensures Base(Emit(s, claims, payload, when).0) == Base(s)
      {
        EmitKeepsBase(s, n.log, claims, payload, when);
      }
    case Reopened => ReopeningKeepsBase(s, n.log);
  }

  lemma ReopeningKeepsBase(s: Sender, log: seq<Payload>)
    requires Inv(s, log)
    ensures Base(PruneDelivered(s)) == Base(s)
  {
    PruneKeepsInv(s, log);
  }

  function Acknowledged(actions: seq<Action>): seq<Payload> {
    if actions == [] then []
    else
      var front, a := Acknowledged(actions[..|actions| - 1]), actions[|actions| - 1];
      if a.Serve? && a.ok && a.sent.Some? then front + [a.sent.value] else front
  }

  ghost predicate Path(nodes: seq<R.Node>, actions: seq<Action>, initial: real, maximum: real) {
    && |nodes| == |actions| + 1
    && forall i | 0 <= i < |actions| :: Acts(nodes[i], actions[i], nodes[i + 1], initial, maximum)
  }

  lemma ActionAdvances(n: R.Node, a: Action, after: R.Node, initial: real, maximum: real)
    requires R.NodeInv(n) && Acts(n, a, after, initial, maximum)
    ensures R.NodeInv(after) && n.log <= after.log
    ensures var acknowledged := a.Serve? && a.ok && a.sent.Some?;
            && Base(after.sender) == Base(n.sender) + (if acknowledged then 1 else 0)
            && (acknowledged ==> 0 <= Base(n.sender) < |n.log| && a.sent.value == n.log[Base(n.sender)])
  {
    hide Inv;
    hide Base;
    hide Turn;
    hide R.Next;
    match a
    case Serve(sent, ok, when) =>
      TurnSendsWindowHead(n.sender, n.log, after.sender, sent, ok, when, initial, maximum);
    case Other(move) =>
      R.NextKeepsInv(n, move);
      OtherMovesKeepBase(n, move);
  }

  lemma BaseIsNat(n: R.Node)
    requires R.NodeInv(n)
    ensures 0 <= Base(n.sender) <= |n.log|
  {
  }

  /** However worker turns, hooks, snapshots and restarts interleave and whichever sends fail, the
      payloads that were acknowledged are a contiguous stretch of everything ever emitted: each exactly
      once, in the order of their numbers, none skipped. */
  lemma {:induction false} AcknowledgedInOrderOnce(
    nodes: seq<R.Node>, actions: seq<Action>, initial: real, maximum: real)
    requires Path(nodes, actions, initial, maximum) && R.NodeInv(nodes[0])
    ensures var last := nodes[|actions|];
            && R.NodeInv(last) && nodes[0].log <= last.log
            && 0 <= Base(nodes[0].sender) <= Base(last.sender) <= |last.log|
            && Acknowledged(actions) == last.log[Base(nodes[0].sender)..Base(last.sender)]
  {
    hide R.NodeInv;
    hide Base;
    hide Acts;
    BaseIsNat(nodes[0]);
    if actions != [] {
      var k := |actions| - 1;
      AcknowledgedInOrderOnce(nodes[..k + 1], actions[..k], initial, maximum);
      ActionAdvances(nodes[k], actions[k], nodes[k + 1], initial, maximum);
      BaseIsNat(nodes[k + 1]);
    }
  }

  // ---------------------------------------------------------------- the snapshot command

  const ATTEMPTS := 5

  datatype HookCall = HookCall(op: Op, jail: Jail, ip: Ip, banId: Uuid, eventId: Uuid, when: real)

  /** One round of the command: the hooks that run before it observes the number, those that run while the
      bans are enumerated, and what the enumeration gives. */
  datatype Round = Round(
    idle: seq<HookCall>, hooks: seq<HookCall>, found: Option<seq<Found>>, drawn: seq<Uuid>, id: Uuid, when: real)

  datatype Ended = Created(payload: Payload) | Stopped(why: Result) | NotEnumerated | NeverQuiet

  predicate Drawn(rounds: seq<Round>) {
    forall r | r in rounds :: r.found.Some? ==> |r.found.value| == |r.drawn|
  }

  function AfterHooks(s: Sender, hooks: seq<HookCall>): Sender
    decreases |hooks|
  {
    if hooks == [] then s
    else
      var h := hooks[0];
      AfterHooks(Enqueue(s, h.op, h.jail, h.ip, h.banId, h.eventId, h.when).0, hooks[1..])
  }

  function Command(s: Sender, rounds: seq<Round>): (Sender, Ended)
    requires Drawn(rounds)
    decreases |rounds|
  {
    if rounds == [] then (s, NeverQuiet)
    else
      var round := rounds[0];
      assert round in rounds;
      var observed := AfterHooks(s, round.idle);
      var current := AfterHooks(observed, round.hooks);
      if round.found.None? then (current, NotEnumerated)
      else
        var (after, r) :=
          SnapshotOf(current, round.found.value, round.drawn, Some(observed.number), round.id, round.when);
        if r.Race? then Command(after, rounds[1..])
        else if r.Enqueued? then (after, Created(r.payload))
        else (after, Stopped(r))
  }

  /** Enumerate and commit under the number observed before; try again after a race. */
  method RunCommand(store: SenderStore, rounds: seq<Round>) returns (ended: Ended)
    requires |rounds| == ATTEMPTS && Drawn(rounds)
    modifies store
    ensures (store.State(), ended) == Command(old(store.State()), rounds)
  {
    var attempt := 0;
    while attempt < ATTEMPTS
      invariant 0 <= attempt <= ATTEMPTS && Drawn(rounds[attempt..])
      invariant Command(old(store.State()), rounds) == Command(store.State(), rounds[attempt..])
    {
      var round := rounds[attempt];
      assert rounds[attempt..][0] == round && rounds[attempt..][1..] == rounds[attempt + 1..];
      RunHooks(store, round.idle);
      var observed := store.CurrentSeq();
      RunHooks(store, round.hooks);
      if round.found.None? {
        return NotEnumerated;
      }
      var r := store.EnqueueSnapshot(round.found.value, round.drawn, Some(observed), round.id, round.when);
      match r {
        case Race =>
        case Enqueued(payload) => return Created(payload);
        case _ => return Stopped(r);
      }
      attempt := attempt + 1;
    }
    ended := NeverQuiet;
  }

  method RunHooks(store: SenderStore, hooks: seq<HookCall>)
    modifies store
    ensures store.State() == AfterHooks(old(store.State()), hooks)
  {
    var i := 0;
    while i < |hooks|
      invariant 0 <= i <= |hooks|
      invariant AfterHooks(old(store.State()), hooks) == AfterHooks(store.State(), hooks[i..])
    {
      var h := hooks[i];
      assert hooks[i..][0] == h && hooks[i..][1..] == hooks[i + 1..];
      var _ := store.Enqueue(h.op, h.jail, h.ip, h.banId, h.eventId, h.when);
      i := i + 1;
    }
  }

  lemma HookKeepsUnique(s: Sender, h: HookCall)
    requires UniqueBans(s.claims)
    ensures var after := Enqueue(s, h.op, h.jail, h.ip, h.banId, h.eventId, h.when).0;
            && UniqueBans(after.claims)
            && s.number <= after.number && (after.number == s.number ==> after == s)
  {
    hide Admissible;
    hide SenderJail;
    var key := Key(h.jail, h.ip);
    if h.op.Unban? && key in s.claims {
      ClosingKeepsUnique(s.claims, key);
    }
  }

  lemma {:induction false} HooksKeepUnique(s: Sender, hooks: seq<HookCall>)
    requires UniqueBans(s.claims)
    ensures var after := AfterHooks(s, hooks);
            && UniqueBans(after.claims)
            && s.number <= after.number && (after.number == s.number ==> after == s)
    decreases |hooks|
  {
    hide UniqueBans;
    hide Enqueue;
    if hooks != [] {
      var h := hooks[0];
      HookKeepsUnique(s, h);
      HooksKeepUnique(Enqueue(s, h.op, h.jail, h.ip, h.banId, h.eventId, h.when).0, hooks[1..]);
    }
  }

  function FoundKeys(found: seq<Found>): set<Key> {
    set f | f in found :: Key(f.jail, f.ip)
  }

  lemma NormalizedKeys(claims: map<Key, Row>, found: seq<Found>, drawn: seq<Uuid>)
    requires |found| == |drawn| && Normalize(claims, found, drawn).Some?
    ensures Keys(Normalize(claims, found, drawn).value) == FoundKeys(found)
  {
    NormalizeIsExact(claims, found, drawn);
    var wanted := Normalize(claims, found, drawn).value;
    forall key
      ensures key in Keys(wanted) <==> key in FoundKeys(found)
    {
      if key in Keys(wanted) {
        var w :| w in wanted && w.key == key;
        var i :| 0 <= i < |wanted| && wanted[i] == w;
        assert found[i] in found;
      }
      if key in FoundKeys(found) {
        var f :| f in found && Key(f.jail, f.ip) == key;
        var i :| 0 <= i < |found| && found[i] == f;
        assert wanted[i] in wanted;
      }
    }
  }

  lemma CommittedSnapshotIsExact(
    s: Sender, found: seq<Found>, drawn: seq<Uuid>, expected: Option<nat>, id: Uuid, when: real)
    requires |found| == |drawn| && UniqueBans(s.claims)
    ensures var (after, r) := SnapshotOf(s, found, drawn, expected, id, when);
            && (r.Enqueued? ==> Active(after.claims).Keys == FoundKeys(found))
            && (r.Race? ==> after == s && expected.Some? && expected.value != s.number)
            && (r.Enqueued? && expected.Some? ==> expected.value == s.number)
  {
    hide UpsertAll;
    hide Normalize;
    hide UniqueBans;
    var normalized := Normalize(s.claims, found, drawn);
    if normalized.Some? {
      NormalizedKeys(s.claims, found, drawn);
      NormalizeIsExact(s.claims, found, drawn);
      var claims := UpsertAll(s.claims, Active(s.claims), normalized.value);
      if claims.Some? {
        ReleaseIsExact(s.claims, normalized.value, claims.value);
      }
    }
  }

  /** The state after all hooks of some rounds, if none of the rounds commits. */
  function AfterRounds(s: Sender, rounds: seq<Round>): Sender
    decreases |rounds|
  {
    if rounds == [] then s else AfterRounds(AfterHooks(AfterHooks(s, rounds[0].idle), rounds[0].hooks), rounds[1..])
  }

  /** A hook was accepted while the bans were enumerated, and the enumeration gave a well-formed list. */
  predicate Disturbed(observed: Sender, round: Round) {
    var current := AfterHooks(observed, round.hooks);
    && observed.number < current.number
    && round.found.Some? && |round.found.value| == |round.drawn|
    && Normalize(current.claims, round.found.value, round.drawn).Some?
  }

  predicate EveryRoundDisturbed(s: Sender, rounds: seq<Round>)
    decreases |rounds|
  {
    rounds == [] ||
    (var observed := AfterHooks(s, rounds[0].idle);
     Disturbed(observed, rounds[0]) && EveryRoundDisturbed(AfterHooks(observed, rounds[0].hooks), rounds[1..]))
  }

  /** The hooks of the round changed nothing, the snapshot was committed on the observed state, and the open
      claims are then exactly the enumerated ones. */
  predicate CommitsQuietly(observed: Sender, r: Round, after: Sender) {
    && AfterHooks(observed, r.hooks) == observed
    && r.found.Some? && |r.found.value| == |r.drawn|
    && SnapshotOf(observed, r.found.value, r.drawn, Some(observed.number), r.id, r.when).0 == after
    && Active(after.claims).Keys == FoundKeys(r.found.value)
  }

  lemma RoundIsFenced(observed: Sender, round: Round)
    requires UniqueBans(observed.claims) && Drawn([round])
    ensures UniqueBans(AfterHooks(observed, round.hooks).claims)
    ensures round.found.Some? && |round.found.value| == |round.drawn| ==>
      var current := AfterHooks(observed, round.hooks);
      var (after, r) := SnapshotOf(current, round.found.value, round.drawn, Some(observed.number), round.id, round.when);
      && (r.Race? <==> Disturbed(observed, round))
      && (r.Race? ==> after == current)
      && (r.Enqueued? ==> CommitsQuietly(observed, round, after))
  {
    hide UniqueBans;
    hide AfterHooks;
    hide UpsertAll;
    hide Normalize;
    HooksKeepUnique(observed, round.hooks);
    var current := AfterHooks(observed, round.hooks);
    if round.found.Some? && |round.found.value| == |round.drawn| {
      CommittedSnapshotIsExact(current, round.found.value, round.drawn, Some(observed.number), round.id, round.when);
    }
  }

  /** The command gives up exactly if in each of its rounds a hook was accepted during the enumeration. It
      creates a snapshot only in a round that no hook disturbed, after rounds that all were disturbed, on the
      very state it observed, and then the open claims are exactly the enumerated ones. */
  lemma {:induction false} CommandIsFenced(s: Sender, rounds: seq<Round>) returns (i: nat)
    requires Drawn(rounds) && UniqueBans(s.claims)
    ensures var (after, ended) := Command(s, rounds);
            && (ended.NeverQuiet? <==> EveryRoundDisturbed(s, rounds))
            && (ended.Created? ==>
                 && i < |rounds| && EveryRoundDisturbed(s, rounds[..i])
                 && CommitsQuietly(AfterHooks(AfterRounds(s, rounds[..i]), rounds[i].idle), rounds[i], after))
    decreases |rounds|
  {
    hide UniqueBans;
    hide AfterHooks;
    hide SnapshotOf;
    hide Disturbed;
    hide CommitsQuietly;
    i := 0;
    if rounds != [] {
      var round := rounds[0];
      assert round in rounds;
      assert Drawn([round]);
      HooksKeepUnique(s, round.idle);
      var observed := AfterHooks(s, round.idle);
      RoundIsFenced(observed, round);
      if round.found.Some? && Disturbed(observed, round) {
        i := CommandIsFenced(AfterHooks(observed, round.hooks), rounds[1..]);
        if Command(s, rounds).1.Created? {
          assert rounds[..i + 1][0] == round && rounds[..i + 1][1..] == rounds[1..][..i];
          i := i + 1;
        }
      } else {
        NotEnumeratedIsNotDisturbed(observed, round);
      }
    }
  }

  lemma NotEnumeratedIsNotDisturbed(observed: Sender, round: Round)
    ensures round.found.None? ==> !Disturbed(observed, round)
  {
  }

  /** The first round that no hook disturbs decides: if its list is well formed, there is room, no identity
      clashes and the identifier is unused, its snapshot is created, with the next number and exactly the
      enumerated claims; otherwise the command stops there. */
  lemma {:induction false} FirstQuietRoundDecides(s: Sender, rounds: seq<Round>, i: nat)
    requires Drawn(rounds) && i < |rounds| && EveryRoundDisturbed(s, rounds[..i])
    requires var observed := AfterHooks(AfterRounds(s, rounds[..i]), rounds[i].idle);
             AfterHooks(observed, rounds[i].hooks) == observed
    ensures var observed := AfterHooks(AfterRounds(s, rounds[..i]), rounds[i].idle);
            var round := rounds[i];
            var (after, ended) := Command(s, rounds);
            && (ended.Created? <==>
                 && round.found.Some? && |round.found.value| == |round.drawn|
                 && Normalize(observed.claims, round.found.value, round.drawn).Some?
                 && O.HasRoom(observed) && !O.IsUsed(observed, round.id)
                 && !O.SomeClash(observed, Normalize(observed.claims, round.found.value, round.drawn).value))
            && (ended.Created? ==>
                 && O.Recorded(observed, after, ended.payload, round.when) && ended.payload.Id() == round.id
                 && O.Reconciled(
                      observed, after, Normalize(observed.claims, round.found.value, round.drawn).value, ended.payload))
    decreases i
  {
    hide AfterHooks;
    hide SnapshotOf;
    hide Normalize;
    hide O.HasRoom;
    hide O.IsUsed;
    hide O.SomeClash;
    hide O.Recorded;
    hide O.Reconciled;
    if i == 0 {
      assert rounds[..0] == [];
      assert rounds[0] in rounds;
      if rounds[0].found.Some? {
        QuietRoundDecides(AfterHooks(s, rounds[0].idle), rounds[0]);
      }
    } else {
      var observed := AfterHooks(s, rounds[0].idle);
      assert rounds[..i][0] == rounds[0] && rounds[..i][1..] == rounds[1..][..i - 1];
      assert rounds[1..][i - 1] == rounds[i];
      assert rounds[0] in rounds;
      DisturbedRoundRaces(observed, rounds[0]);
      FirstQuietRoundDecides(AfterHooks(observed, rounds[0].hooks), rounds[1..], i - 1);
    }
  }

  lemma DisturbedRoundRaces(observed: Sender, round: Round)
    requires Disturbed(observed, round)
    ensures var current := AfterHooks(observed, round.hooks);
            SnapshotOf(current, round.found.value, round.drawn, Some(observed.number), round.id, round.when)
              == (current, Race)
  {
    hide AfterHooks;
    hide Normalize;
    hide UpsertAll;
  }

  lemma QuietRoundDecides(observed: Sender, round: Round)
    requires round.found.Some? && |round.found.value| == |round.drawn|
    ensures var (after, r) :=
              SnapshotOf(observed, round.found.value, round.drawn, Some(observed.number), round.id, round.when);
            var wanted := Normalize(observed.claims, round.found.value, round.drawn);
            && !r.Race?
            && (r.Enqueued? <==>
                 wanted.Some? && O.HasRoom(observed) && !O.IsUsed(observed, round.id) && !O.SomeClash(observed, wanted.value))
            && (r.Enqueued? ==>
                 && O.Recorded(observed, after, r.payload, round.when) && r.payload.Id() == round.id
                 && O.Reconciled(observed, after, wanted.value, r.payload))
  {
    hide Normalize;
    hide UpsertAll;
    hide O.SnapshotAnswered;
    var wanted := Normalize(observed.claims, round.found.value, round.drawn);
    if wanted.Some? {
      NormalizeIsExact(observed.claims, round.found.value, round.drawn);
      O.SnapshotIsAnswered(observed, wanted.value, Some(observed.number), round.id, round.when);
      AnsweredSnapshot(observed, wanted.value, round.id, round.when);
    }
  }

  lemma AnsweredSnapshot(s: Sender, wanted: seq<Wanted>, id: Uuid, when: real)
    requires var (after, r) := Snapshot(s, wanted, Some(s.number), id, when);
             O.SnapshotAnswered(s, after, r, wanted, Some(s.number), id, when)
    ensures var (after, r) := Snapshot(s, wanted, Some(s.number), id, when);
            && !r.Race?
            && (r.Enqueued? <==> O.HasRoom(s) && !O.IsUsed(s, id) && !O.SomeClash(s, wanted))
            && (r.Enqueued? ==>
                 O.Recorded(s, after, r.payload, when) && r.payload.Id() == id && O.Reconciled(s, after, wanted, r.payload))
  {
    hide Snapshot;
    hide O.SomeClash;
    hide O.Reconciled;
    hide O.Recorded;
  }
}
