/** Runs of the sender: any interleaving of hooks, snapshot commits, delivery marks and restarts. */
module SenderRuns {
  import opened SenderLaws
  import opened SenderModel
  import opened Wire

  /** The durable state together with every payload it has ever emitted. */
  datatype Node = Node(sender: Sender, log: seq<Payload>)

  datatype Move =
    | Hook(op: Op, jail: Jail, ip: Ip, banId: Uuid, eventId: Uuid, when: real)
    | Reconcile(wanted: seq<Wanted>, expected: Option<nat>, snapshotId: Uuid, when: real)
    | Delivered(id: nat, when: real)
    | Retried(id: nat, attempts: nat, until: real)
    | Reopened

  predicate IsHead(s: Sender, id: nat) {
    id in Pending(s) && forall other | other in Pending(s) :: s.outbox[id].number <= s.outbox[other].number
  }

  /** Drawn identifiers are fresh, a snapshot has been normalised, and only the row that the worker
      fetched is marked as delivered. A move that is not possible changes nothing. */
  ghost predicate Possible(n: Node, m: Move) {
    match m
    case Hook(_, _, _, _, eventId, _) => FreshId(n.log, eventId)
    case Reconcile(wanted, _, id, _) => FreshId(n.log, id) && DistinctKeys(wanted) && ValidKeys(wanted)
    case Delivered(id, _) => IsHead(n.sender, id)
    case Retried(_, _, _) => true
    case Reopened => true
  }

  /** What a hook or a snapshot answers. */
  function Answer(s: Sender, m: Move): (Sender, Result)
    requires m.Hook? || m.Reconcile?
  {
    match m
    case Hook(op, jail, ip, banId, eventId, when) => Enqueue(s, op, jail, ip, banId, eventId, when)
    case Reconcile(wanted, expected, id, when) => Snapshot(s, wanted, expected, id, when)
  }

  ghost function Next(n: Node, m: Move): Node {
    if !Possible(n, m) then n
    else
      match m
      case Delivered(id, when) => Node(MarkDelivered(n.sender, id, when), n.log)
      case Retried(id, attempts, until) => Node(MarkRetry(n.sender, id, attempts, until), n.log)
      case Reopened => Node(PruneDelivered(n.sender), n.log)
      case _ =>
        var (s, r) := Answer(n.sender, m);
        Node(s, Logged(n.log, r))
  }

  ghost function Run(n: Node, moves: seq<Move>): Node {
    if moves == [] then n else Next(Run(n, moves[..|moves| - 1]), moves[|moves| - 1])
  }

  ghost predicate NodeInv(n: Node) {
    Inv(n.sender, n.log)
  }

  lemma HeadIsFirst(n: Node, id: nat)
    requires NodeInv(n) && IsHead(n.sender, id)
    ensures id == Base(n.sender) + 1
  {
    assert Base(n.sender) + 1 in Pending(n.sender);
  }

  lemma NextKeepsInv(n: Node, m: Move)
    requires NodeInv(n)
    ensures NodeInv(Next(n, m))
    ensures n.log <= Next(n, m).log
  {
    if Possible(n, m) {
      match m
      case Hook(op, jail, ip, banId, eventId, when) =>
        EnqueueKeepsInv(n.sender, n.log, op, jail, ip, banId, eventId, when);
      case Reconcile(wanted, expected, id, when) =>
        SnapshotKeepsInv(n.sender, n.log, wanted, expected, id, when);
      case Delivered(id, when) =>
        HeadIsFirst(n, id);
        DeliveredKeepsInv(n.sender, n.log, id, when);
      case Retried(id, attempts, until) =>
        RetryKeepsInv(n.sender, n.log, id, attempts, until);
      case Reopened =>
        PruneKeepsInv(n.sender, n.log);
    }
  }

  lemma {:induction false} RunKeepsInv(n: Node, moves: seq<Move>)
    requires NodeInv(n)
    ensures NodeInv(Run(n, moves)) && n.log <= Run(n, moves).log
  {
    if moves != [] {
      RunKeepsInv(n, moves[..|moves| - 1]);
      NextKeepsInv(Run(n, moves[..|moves| - 1]), moves[|moves| - 1]);
    }
  }

  /** The undelivered numbers are exactly an interval ending at the allocator value, every delivered
      row lies below it, and the bound on pending rows holds. */
  ghost predicate WindowShape(s: Sender) {
    var first := s.number - |Pending(s)|;
    && 0 <= first
    && (forall id: nat :: id in Pending(s) <==> first < id <= s.number)
    && (forall id | id in s.outbox :: s.outbox[id].deliveredAt.Some? <==> id <= first)
    && |Pending(s)| <= s.maxPending
  }

  lemma InvHasWindowShape(s: Sender, log: seq<Payload>)
    requires Inv(s, log)
    ensures WindowShape(s)
  {
    assert forall id | id in s.outbox :: id in Pending(s) <==> s.outbox[id].deliveredAt.None?;
    assert forall id | id in s.outbox :: id <= s.number;
  }

  /** After any run from an empty database the window has its shape, and the n-th payload ever emitted
      has number n, so no number is reused after pruning or a restart. */
  lemma OutboxWindow(maxPending: nat, moves: seq<Move>)
    ensures var n := Run(Node(Opened(maxPending), []), moves);
            && WindowShape(n.sender) && n.sender.maxPending == maxPending
            && n.sender.number == |n.log|
            && (forall i | 0 <= i < |n.log| :: n.log[i].Number() == i + 1)
  {
    OpenedInv(maxPending);
    RunKeepsInv(Node(Opened(maxPending), []), moves);
    BoundIsFixed(Node(Opened(maxPending), []), moves);
    var n := Run(Node(Opened(maxPending), []), moves);
    InvHasWindowShape(n.sender, n.log);
  }

  lemma {:induction false} BoundIsFixed(n: Node, moves: seq<Move>)
    ensures Run(n, moves).sender.maxPending == n.sender.maxPending
  {
    if moves != [] {
      BoundIsFixed(n, moves[..|moves| - 1]);
    }
  }

  // ---------------------------------------------------------------- the snapshot fence

  /** Whatever happens between two instants, the allocator never goes back, and if its value is the
      same at both, the claims table is the same at both. */
  lemma {:induction false} SameNumberSameClaims(n: Node, moves: seq<Move>)
    ensures Run(n, moves).sender.number >= n.sender.number
    ensures Run(n, moves).sender.number == n.sender.number ==> Run(n, moves).sender.claims == n.sender.claims
  {
    if moves != [] {
      SameNumberSameClaims(n, moves[..|moves| - 1]);
    }
  }

  /** A snapshot that commits under the number observed before enumerating commits on the very claims
      table that was observed, whatever ran in between. Open claims that it lists keep the identity
      they had when observed, and the listed keys become exactly the open ones. */
  lemma FencedSnapshotCommitsOnObservedClaims(
    observed: Node, between: seq<Move>, wanted: seq<Wanted>, id: Uuid, when: real)
    requires NodeInv(observed) && DistinctKeys(wanted) && ValidKeys(wanted)
    requires FreshId(Run(observed, between).log, id)
    ensures var n := Run(observed, between);
            var (after, r) := Snapshot(n.sender, wanted, Some(observed.sender.number), id, when);
            && (r.Race? <==> n.sender.number != observed.sender.number)
            && (r.Enqueued? ==>
                && n.sender.claims == observed.sender.claims
                && Active(after.claims).Keys == Keys(wanted)
                && forall k | k in Keys(wanted) && k in Active(observed.sender.claims) ::
                     Active(after.claims)[k] == Active(observed.sender.claims)[k])
  {
    RunKeepsInv(observed, between);
    SameNumberSameClaims(observed, between);
    var n := Run(observed, between);
    SnapshotKeepsInv(n.sender, n.log, wanted, Some(observed.sender.number), id, when);
  }

  // ---------------------------------------------------------------- the hook lifecycle

  ghost predicate OnlyHooks(moves: seq<Move>) {
    forall m | m in moves :: m.Hook?
  }

  /** The hooks that were accepted, applied to a plain set of keys. */
  ghost function SetAfter(n: Node, hooks: seq<Move>): set<Key>
    requires OnlyHooks(hooks)
  {
    if hooks == [] then Active(n.sender.claims).Keys
    else
      var front, h := hooks[..|hooks| - 1], hooks[|hooks| - 1];
      var before := Run(n, front);
      var key := {Key(h.jail, h.ip)};
      assert h in hooks;
      var r := Answer(before.sender, h).1;
      if !Possible(before, h) || !(r.Enqueued? || r.Unchanged?) then SetAfter(n, front)
      else if h.op.Ban? then SetAfter(n, front) + key
      else SetAfter(n, front) - key
  }

  lemma HookChangesSet(n: Node, h: Move)
    requires NodeInv(n) && h.Hook?
    ensures var r := Answer(n.sender, h).1;
            var key := {Key(h.jail, h.ip)};
            var open := Active(n.sender.claims).Keys;
            Active(Next(n, h).sender.claims).Keys ==
              if !Possible(n, h) || !(r.Enqueued? || r.Unchanged?) then open
              else if h.op.Ban? then open + key else open - key
  {
    hide Inv;
    hide Enqueue;
    hide FreshId;
    if Possible(n, h) {
      EnqueueKeepsInv(n.sender, n.log, h.op, h.jail, h.ip, h.banId, h.eventId, h.when);
    }
  }

  /** A run of hooks refines insertion into and removal from a set of (jail, address) pairs. */
  lemma {:induction false} HooksRefineSet(n: Node, hooks: seq<Move>)
    requires NodeInv(n) && OnlyHooks(hooks)
    ensures Active(Run(n, hooks).sender.claims).Keys == SetAfter(n, hooks)
  {
    if hooks != [] {
      var front, h := hooks[..|hooks| - 1], hooks[|hooks| - 1];
      HooksRefineSet(n, front);
      RunKeepsInv(n, front);
      assert h in hooks;
      HookChangesSet(Run(n, front), h);
    }
  }

  predicate Touches(p: Payload, key: Key) {
    p.SnapshotPayload? || Key(p.event.jail, p.event.ip) == key
  }

  lemma {:induction false} UntouchedKeyStays(log: seq<Payload>, key: Key, lo: nat, hi: nat)
    requires lo <= hi <= |log|
    requires forall i | lo <= i < hi :: !Touches(log[i], key)
    ensures key in View(log[..hi]) <==> key in View(log[..lo])
    ensures key in View(log[..hi]) ==> View(log[..hi])[key] == View(log[..lo])[key]
    decreases hi
  {
    if lo < hi {
      UntouchedKeyStays(log, key, lo, hi - 1);
      assert log[..hi][..hi - 1] == log[..hi - 1];
    }
  }

  /** Between snapshots, the events of one key alternate, and each unban carries the identity of the
      ban that opened the claim. */
  lemma EventsOfKeyAlternate(log: seq<Payload>, i: nat, j: nat)
    requires LogOk(log) && i < j < |log| && log[i].EventPayload? && log[j].EventPayload?
    requires var e, f := log[i].event, log[j].event; e.jail == f.jail && e.ip == f.ip
    requires forall m | i < m < j :: !Touches(log[m], Key(log[i].event.jail, log[i].event.ip))
    ensures log[i].event.op != log[j].event.op
    ensures log[j].event.op.Unban? ==> log[j].event.banId == log[i].event.banId
    ensures log[j].event.op.Ban? ==> log[j].event.banId !in View(log[..j]).Values || HeldElsewhere(log, j)
  {
    var key := Key(log[i].event.jail, log[i].event.ip);
    UntouchedKeyStays(log, key, i + 1, j);
    assert log[..i + 1][..i] == log[..i];
    assert Honest(View(log[..j]), log[j]);
    if log[j].event.op.Ban? && log[j].event.banId in View(log[..j]).Values {
      var k :| k in View(log[..j]) && View(log[..j])[k] == log[j].event.banId;
    }
  }

  /** The identity is in use, but in another jail, where it is a different claim. */
  ghost predicate HeldElsewhere(log: seq<Payload>, j: nat)
    requires j < |log| && log[j].EventPayload?
  {
    exists k :: k in View(log[..j]) && k.jail != log[j].event.jail && View(log[..j])[k] == log[j].event.banId
  }
}
