/** Once sends succeed and nothing new is recorded, the outbox drains and the two ends are equal. */
module Convergence {
  import R = ReceiverModel
  import Rep = Replication
  import S = SenderModel
  import SL = SenderLaws
  import SR = SenderRuns
  import opened Wire

  function PendingOf(s: Rep.System, client: Client): set<nat>
    requires client in s.hosts
  {
    S.Pending(s.hosts[client].node.sender)
  }

  function OpenClaims(s: Rep.System, client: Client): map<S.Key, Uuid>
    requires client in s.hosts
  {
    S.Active(s.hosts[client].node.sender.claims)
  }

  /** With an empty outbox the receiver's claims of the sender are exactly the inverse of the sender's
      open claims. */
  lemma EmptyOutboxMeansEqual(s: Rep.System, client: Client)
    requires Rep.SystemInv(s) && client in s.hosts && PendingOf(s, client) == {}
    ensures R.LastSeq(s.tables, client) == s.hosts[client].node.sender.number
    ensures Rep.Mirror(client, R.ClientRows(s.tables.claims, client), OpenClaims(s, client))
  {
    hide Rep.Mirror;
    hide SL.LogOk;
    hide R.ClientRows;
    var n := s.hosts[client].node;
    assert Rep.HostOk(s.tables, client, s.hosts[client]);
    assert n.log[..|n.log|] == n.log;
  }

  // ---------------------------------------------------------------- the measure

  /** The sender itself records something new. */
  predicate Records(m: Rep.Move, client: Client) {
    m.Local? && m.client == client && (m.move.Hook? || m.move.Reconcile?)
  }

  /** The worker of the client takes the answer it waits for. */
  ghost predicate TakesAnswer(s: Rep.System, m: Rep.Move, client: Client) {
    && m.Acked? && m.client == client && client in s.hosts
    && s.hosts[client].working.Some? && Rep.Ack(client, s.hosts[client].working.value) in s.acks
  }

  /** No move of anyone changes a sender's outbox length or open claims, except that the sender records
      something new or takes an answer; an answer makes the outbox exactly one shorter. */
  lemma PendingIsMeasure(s: Rep.System, m: Rep.Move, client: Client)
    requires Rep.SystemInv(s) && client in s.hosts && !Records(m, client)
    ensures client in Rep.Perform(s, m).hosts
    ensures |PendingOf(Rep.Perform(s, m), client)| == |PendingOf(s, client)| - if TakesAnswer(s, m, client) then 1 else 0
    ensures OpenClaims(Rep.Perform(s, m), client) == OpenClaims(s, client)
  {
    hide R.Apply;
    hide R.Valid;
    hide R.Prune;
    hide S.IsDue;
    hide Rep.SystemInv;
    hide SR.Next;
    hide SR.NodeInv;
    hide SR.IsHead;
    hide S.Pending;
    hide S.Active;
    HostIsOk(s, client);
    var n := s.hosts[client].node;
    match m
    case Acked(c, when) =>
      if TakesAnswer(s, m, client) {
        ProcessedAnswer(n, s.hosts[c].working.value, when);
      }
    case GiveUp(c, until) =>
      if c == client && s.hosts[c].working.Some? && s.hosts[c].working.value in n.sender.outbox {
        var id := s.hosts[c].working.value;
        QuietMove(n, SR.Retried(id, n.sender.outbox[id].attempts + 1, until));
      }
    case Restart(c) => QuietMove(n, SR.Reopened);
    case Local(c, move) =>
      if c == client && move.Reopened? {
        QuietMove(n, move);
      }
    case _ =>
  }

  lemma QuietMove(n: SR.Node, m: SR.Move)
    requires SR.NodeInv(n) && (m.Retried? || m.Reopened?)
    ensures S.Pending(SR.Next(n, m).sender) == S.Pending(n.sender)
    ensures SR.Next(n, m).sender.claims == n.sender.claims
  {
    hide SR.NodeInv;
    Rep.QuietKeepsPending(n, m);
  }

  // ---------------------------------------------------------------- every run without new records

  predicate Quiet(moves: seq<Rep.Move>, client: Client) {
    forall m | m in moves :: !Records(m, client)
  }

  /** How many answers the client's worker takes during the run. */
  ghost function Answers(s: Rep.System, moves: seq<Rep.Move>, client: Client): nat {
    if moves == [] then 0
    else
      var front, last := moves[..|moves| - 1], moves[|moves| - 1];
      Answers(s, front, client) + if TakesAnswer(Rep.Run(s, front), last, client) then 1 else 0
  }

  /** Over every run in which the sender records nothing new, with any schedule of sends, losses,
      repetitions, time-outs, restarts and moves of others, its undelivered rows and the answers it took
      add up to the rows it had, and its open claims stay. So at most that many answers are ever taken. */
  lemma {:induction false} QuietRunDrains(s: Rep.System, moves: seq<Rep.Move>, client: Client)
    requires Rep.SystemInv(s) && client in s.hosts && Quiet(moves, client)
    ensures var after := Rep.Run(s, moves);
            && Rep.SystemInv(after) && client in after.hosts
            && |PendingOf(after, client)| + Answers(s, moves, client) == |PendingOf(s, client)|
            && OpenClaims(after, client) == OpenClaims(s, client)
  {
    hide Rep.SystemInv;
    hide Rep.Perform;
    hide PendingOf;
    hide OpenClaims;
    hide TakesAnswer;
    hide Records;
    if moves != [] {
      var front, last := moves[..|moves| - 1], moves[|moves| - 1];
      assert last in moves;
      QuietRunDrains(s, front, client);
      Rep.PerformKeepsInv(Rep.Run(s, front), last);
      PendingIsMeasure(Rep.Run(s, front), last, client);
    }
  }

  /** Convergence: over every such run the outbox is empty exactly once as many answers were taken as
      rows were undelivered, and then the receiver's claims are exactly the inverse of the sender's open
      claims. */
  lemma AnsweredRunConverges(s: Rep.System, moves: seq<Rep.Move>, client: Client)
    requires Rep.SystemInv(s) && client in s.hosts && Quiet(moves, client)
    ensures var after := Rep.Run(s, moves);
            && client in after.hosts
            && (PendingOf(after, client) == {} <==> Answers(s, moves, client) == |PendingOf(s, client)|)
            && (PendingOf(after, client) == {} ==>
                 && R.LastSeq(after.tables, client) == after.hosts[client].node.sender.number
                 && Rep.Mirror(client, R.ClientRows(after.tables.claims, client), OpenClaims(s, client)))
  {
    hide *;
    QuietRunDrains(s, moves, client);
    var after := Rep.Run(s, moves);
    if PendingOf(after, client) == {} {
      EmptyOutboxMeansEqual(after, client);
    }
  }

  lemma ProcessedAnswer(n: SR.Node, id: nat, when: real)
    requires SR.NodeInv(n) && SR.IsHead(n.sender, id)
    ensures var next := SR.Next(n, SR.Delivered(id, when));
            && |S.Pending(next.sender)| == |S.Pending(n.sender)| - 1
            && S.Pending(next.sender) == S.Pending(n.sender) - {id}
            && next.sender.claims == n.sender.claims
            && forall other | other in S.Pending(next.sender) :: next.sender.outbox[other] == n.sender.outbox[other]
  {
    hide SL.ClaimsOk;
    SR.HeadIsFirst(n, id);
    SL.DeliveredKeepsInv(n.sender, n.log, id, when);
  }

  // ---------------------------------------------------------------- successful rounds

  /** The number of the row the worker sends next. */
  function HeadOf(s: Rep.System, client: Client): int
    requires client in s.hosts
  {
    SL.Base(s.hosts[client].node.sender) + 1
  }

  ghost predicate AllDue(s: Rep.System, client: Client, when: real)
    requires client in s.hosts
  {
    forall id | id in PendingOf(s, client) :: s.hosts[client].node.sender.outbox[id].availableAt <= when
  }

  /** The worker is idle, has something to send, and no retry wait is running. */
  ghost predicate Ready(s: Rep.System, client: Client, when: real) {
    && Rep.SystemInv(s) && client in s.hosts && s.hosts[client].working.None?
    && PendingOf(s, client) != {} && AllDue(s, client, when)
  }

  ghost function Sent(s: Rep.System, client: Client, when: real): Rep.System
    requires client in s.hosts && HeadOf(s, client) >= 0
  {
    Rep.Perform(s, Rep.Send(client, HeadOf(s, client), when))
  }

  ghost function HeadMessage(s: Rep.System, client: Client): Rep.Message
    requires client in s.hosts && HeadOf(s, client) in s.hosts[client].node.sender.outbox
  {
    Rep.Message(client, s.hosts[client].node.sender.outbox[HeadOf(s, client)].payload)
  }

  /** The send succeeds: the request passes validation and is not refused. */
  ghost predicate SendSucceeds(s: Rep.System, client: Client, limit: nat, now: real)
    requires client in s.hosts && HeadOf(s, client) in s.hosts[client].node.sender.outbox
  {
    var m := HeadMessage(s, client);
    R.Valid(Rep.RequestOf(m, limit), limit) && !Rep.Received(s, m, limit, now).1.Refused?
  }

  lemma HeadIsPending(s: Rep.System, client: Client, when: real)
    requires Ready(s, client, when)
    ensures HeadOf(s, client) in PendingOf(s, client)
    ensures S.IsDue(s.hosts[client].node.sender, HeadOf(s, client), when)
    ensures HeadMessage(s, client).payload.Number() == HeadOf(s, client)
    ensures SR.IsHead(s.hosts[client].node.sender, HeadOf(s, client))
  {
    hide SL.ClaimsOk;
    hide Rep.Agrees;
    var n := s.hosts[client].node;
    assert Rep.HostOk(s.tables, client, s.hosts[client]);
    assert SL.Contiguous(PendingOf(s, client), n.sender.number);
    assert |PendingOf(s, client)| > 0;
    assert HeadOf(s, client) in PendingOf(s, client);
    Rep.RowNumbers(n);
    Rep.EmittedNumber(n, HeadOf(s, client));
  }

  /** Send, arrival and processed answer. */
  ghost function Round(s: Rep.System, client: Client, limit: nat, when: real): Rep.System
    requires Ready(s, client, when)
  {
    HeadIsPending(s, client, when);
    var sent := Sent(s, client, when);
    var arrived := Rep.Perform(sent, Rep.Deliver(HeadMessage(s, client), limit, when, true));
    Rep.Perform(arrived, Rep.Acked(client, when))
  }

  /** A round whose send succeeds delivers exactly the head row and changes no claim of the sender. */
  lemma SuccessfulRound(s: Rep.System, client: Client, limit: nat, when: real)
    requires Ready(s, client, when)
    requires HeadOf(s, client) in s.hosts[client].node.sender.outbox && SendSucceeds(s, client, limit, when)
    ensures var after := Round(s, client, limit, when);
            && Rep.SystemInv(after) && client in after.hosts && after.hosts[client].working.None?
            && PendingOf(after, client) == PendingOf(s, client) - {HeadOf(s, client)}
            && |PendingOf(after, client)| == |PendingOf(s, client)| - 1
            && OpenClaims(after, client) == OpenClaims(s, client)
            && AllDue(after, client, when)
  {
    hide Rep.SystemInv;
    hide R.Apply;
    hide R.Valid;
    hide SR.NodeInv;
    HeadIsPending(s, client, when);
    var id, m := HeadOf(s, client), HeadMessage(s, client);
    var sent := Sent(s, client, when);
    Rep.PerformKeepsInv(s, Rep.Send(client, id, when));
    assert sent.tables == s.tables && m in sent.inflight && sent.hosts[client].working == Some(id);
    assert sent.hosts[client].node == s.hosts[client].node;
    var arrived := Rep.Perform(sent, Rep.Deliver(m, limit, when, true));
    Rep.PerformKeepsInv(sent, Rep.Deliver(m, limit, when, true));
    assert Rep.Ack(client, id) in arrived.acks && arrived.hosts == sent.hosts;
    Rep.PerformKeepsInv(arrived, Rep.Acked(client, when));
    HostIsOk(s, client);
    ProcessedAnswer(s.hosts[client].node, id, when);
  }

  lemma HostIsOk(s: Rep.System, client: Client)
    requires Rep.SystemInv(s) && client in s.hosts
    ensures SR.NodeInv(s.hosts[client].node)
    ensures s.hosts[client].working.Some? ==> SR.IsHead(s.hosts[client].node.sender, s.hosts[client].working.value)
  {
    hide Rep.Agrees;
    assert Rep.HostOk(s.tables, client, s.hosts[client]);
  }

  lemma {:induction false} RunJoins(s: Rep.System, a: seq<Rep.Move>, b: seq<Rep.Move>)
    ensures Rep.Run(s, a + b) == Rep.Run(Rep.Run(s, a), b)
  {
    hide Rep.Perform;
    if b == [] {
      assert a + b == a;
    } else {
      RunJoins(s, a, b[..|b| - 1]);
      assert (a + b)[..|a + b| - 1] == a + b[..|b| - 1];
    }
  }

  function RoundMoves(client: Client, id: nat, m: Rep.Message, limit: nat, when: real): seq<Rep.Move> {
    [Rep.Send(client, id, when)] + [Rep.Deliver(m, limit, when, true)] + [Rep.Acked(client, when)]
  }

  lemma RoundIsRun(s: Rep.System, client: Client, limit: nat, when: real)
    requires Ready(s, client, when)
    requires HeadOf(s, client) in s.hosts[client].node.sender.outbox && HeadOf(s, client) >= 0
    ensures var moves := RoundMoves(client, HeadOf(s, client), HeadMessage(s, client), limit, when);
            Rep.Run(s, moves) == Round(s, client, limit, when) && Quiet(moves, client)
  {
    hide Rep.Perform;
    hide Rep.SystemInv;
    hide AllDue;
    hide HeadOf;
    hide HeadMessage;
    var send, arrive := Rep.Send(client, HeadOf(s, client), when), Rep.Deliver(HeadMessage(s, client), limit, when, true);
    var take := Rep.Acked(client, when);
    OneMove(s, send);
    RunJoins(s, [send], [arrive]);
    OneMove(Rep.Perform(s, send), arrive);
    RunJoins(s, [send] + [arrive], [take]);
    OneMove(Rep.Perform(Rep.Perform(s, send), arrive), take);
  }

  lemma OneMove(s: Rep.System, m: Rep.Move)
    ensures Rep.Run(s, [m]) == Rep.Perform(s, m)
  {
    hide Rep.Perform;
    assert [m][..0] == [];
    assert Rep.Run(s, []) == s;
  }

  lemma {:induction false} WaitsEnd(outbox: map<nat, S.OutRow>, ids: set<nat>) returns (when: real)
    requires ids <= outbox.Keys
    ensures forall id | id in ids :: outbox[id].availableAt <= when
    decreases |ids|
  {
    when := 0.0;
    if ids != {} {
      var id :| id in ids;
      when := WaitsEnd(outbox, ids - {id});
      if when < outbox[id].availableAt {
        when := outbox[id].availableAt;
      }
    }
  }

  /** From some time on every retry wait is over. */
  lemma AllDueEventually(s: Rep.System, client: Client) returns (when: real)
    requires client in s.hosts
    ensures AllDue(s, client, when)
  {
    when := WaitsEnd(s.hosts[client].node.sender.outbox, PendingOf(s, client));
  }

  // ---------------------------------------------------------------- what is then enforced

  ghost function ClaimedSomewhere(s: Rep.System): set<Ip> {
    set c, k | c in s.hosts && k in OpenClaims(s, c) :: k.ip
  }

  /** No host records anything new, and every host takes as many answers as it had undelivered rows. */
  ghost predicate AllAnswered(s: Rep.System, moves: seq<Rep.Move>) {
    forall c | c in s.hosts :: Quiet(moves, c) && Answers(s, moves, c) == |PendingOf(s, c)|
  }

  /** The addresses that clients other than these hosts have in force. */
  function ForeignIps(s: Rep.System, now: real): set<Ip> {
    R.EffectiveIps(ForeignRows(s), now)
  }

  function ForeignRows(s: Rep.System): map<R.ClaimId, R.ClaimRow> {
    map id | id in s.tables.claims && id.client !in s.hosts :: s.tables.claims[id]
  }

  lemma AllConverge(s: Rep.System, moves: seq<Rep.Move>)
    requires Rep.SystemInv(s) && AllAnswered(s, moves)
    ensures var after := Rep.Run(s, moves);
            && Rep.SystemInv(after) && after.hosts.Keys == s.hosts.Keys
            && (forall c | c in after.hosts :: PendingOf(after, c) == {})
            && ClaimedSomewhere(after) == ClaimedSomewhere(s)
  {
    hide Rep.SystemInv;
    hide Rep.Run;
    hide Rep.Mirror;
    hide PendingOf;
    hide OpenClaims;
    hide Quiet;
    hide Answers;
    var after := Rep.Run(s, moves);
    Rep.RunKeepsInv(s, moves);
    Rep.HostsAreFixed(s, moves);
    forall c | c in s.hosts
      ensures c in after.hosts && PendingOf(after, c) == {} && OpenClaims(after, c) == OpenClaims(s, c)
    {
      AnsweredRunConverges(s, moves, c);
      QuietRunDrains(s, moves, c);
    }
  }

  /** With all outboxes empty the addresses to enforce are, at any time, exactly those that some host has
      open and those that other clients have in force. */
  lemma DrainedEffectiveIsUnion(s: Rep.System, now: real)
    requires Rep.SystemInv(s) && (forall c | c in s.hosts :: PendingOf(s, c) == {})
    ensures R.EffectiveIps(s.tables.claims, now) == ClaimedSomewhere(s) + ForeignIps(s, now)
  {
    hide Rep.SystemInv;
    forall c | c in s.hosts
      ensures Rep.Mirror(c, R.ClientRows(s.tables.claims, c), OpenClaims(s, c))
    {
      EmptyOutboxMeansEqual(s, c);
    }
    forall ip | ip in R.EffectiveIps(s.tables.claims, now)
      ensures ip in ClaimedSomewhere(s) + ForeignIps(s, now)
    {
      var id :| id in s.tables.claims && R.InForce(s.tables.claims[id], now) && s.tables.claims[id].ip == ip;
      if id.client in s.hosts {
        assert id in R.ClientRows(s.tables.claims, id.client);
        assert S.Key(id.jail, ip) in OpenClaims(s, id.client);
      } else {
        var foreign := ForeignRows(s);
        assert id in foreign && R.InForce(foreign[id], now) && foreign[id].ip == ip;
      }
    }
    forall ip | ip in ClaimedSomewhere(s)
      ensures ip in R.EffectiveIps(s.tables.claims, now)
    {
      var c, k :| c in s.hosts && k in OpenClaims(s, c) && k.ip == ip;
      var id := R.ClaimId(c, k.jail, OpenClaims(s, c)[k]);
      assert id in R.ClientRows(s.tables.claims, c);
    }
  }

  /** After every run in which no host records anything new and every host takes all its answers, the
      addresses to enforce are, at any time, exactly those that some host had open at its start and those
      that other clients then have in force. */
  lemma AnsweredRunEnforcesUnion(s: Rep.System, moves: seq<Rep.Move>, now: real)
    requires Rep.SystemInv(s) && AllAnswered(s, moves)
    ensures var after := Rep.Run(s, moves);
            R.EffectiveIps(after.tables.claims, now) == ClaimedSomewhere(s) + ForeignIps(after, now)
  {
    hide *;
    AllConverge(s, moves);
    DrainedEffectiveIsUnion(Rep.Run(s, moves), now);
  }
}
