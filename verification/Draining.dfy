/** That the senders' outboxes can always be drained, from conditions on their logs, the limit and the
    total alone. */
module Draining {
  import A = Admission
  import opened Convergence
  import L = HeadOfLine
  import R = ReceiverModel
  import opened Replication
  import RL = ReceiverLaws
  import S = SenderModel
  import SI = StoreInvariant
  import SL = SenderLaws
  import SR = SenderRuns
  import opened Wire

  // ---------------------------------------------------------------- room for everybody

  function RowsAmong(claims: map<R.ClaimId, R.ClaimRow>, clients: set<Client>): map<R.ClaimId, R.ClaimRow> {
    map id | id in claims && id.client in clients :: claims[id]
  }

  lemma AmongSplit(claims: map<R.ClaimId, R.ClaimRow>, clients: set<Client>, c: Client)
    requires c in clients
    ensures |RowsAmong(claims, clients)| == |RowsAmong(claims, clients - {c})| + |R.ClientRows(claims, c)|
  {
    var all, rest, own := RowsAmong(claims, clients), RowsAmong(claims, clients - {c}), R.ClientRows(claims, c);
    assert all.Keys == rest.Keys + own.Keys && rest.Keys !! own.Keys;
    assert |all.Keys| == |all| && |rest.Keys| == |rest| && |own.Keys| == |own|;
  }

  /** The rows that so many hosts may hold together. */
  function Share(hosts: nat, limit: nat): nat {
    hosts * limit
  }

  lemma OneMore(hosts: nat, limit: nat)
    ensures Share(0, limit) == 0 && Share(hosts + 1, limit) == Share(hosts, limit) + limit
  {
  }

  lemma NobodyHasRows(claims: map<R.ClaimId, R.ClaimRow>)
    ensures RowsAmong(claims, {}) == map[]
  {
  }

  lemma {:induction false} FewRowsAmong(claims: map<R.ClaimId, R.ClaimRow>, clients: set<Client>, limit: nat)
    requires forall c | c in clients :: |R.ClientRows(claims, c)| <= limit
    ensures |RowsAmong(claims, clients)| <= Share(|clients|, limit)
    decreases |clients|
  {
    hide *;
    NobodyHasRows(claims);
    OneMore(0, limit);
    if clients != {} {
      var c :| c in clients;
      FewRowsAmong(claims, clients - {c}, limit);
      AmongSplit(claims, clients, c);
      OneMore(|clients| - 1, limit);
    }
  }

  /** Every undelivered payload can be admitted, every host holds at most `limit` rows, and the total has
      room for that many rows of every host beside the rows of other clients. */
  ghost predicate Drainable(s: System, limit: nat) {
    && SystemInv(s)
    && (forall c | c in s.hosts :: |R.ClientRows(s.tables.claims, c)| <= limit && PendingAdmissible(s.hosts[c].node, limit))
    && |ForeignRows(s)| + Share(|s.hosts|, limit) <= R.SOURCE_CAPS.total
  }

  ghost predicate PendingAdmissible(n: SR.Node, limit: nat) {
    forall k | k in S.Pending(n.sender) :: 1 <= k <= |n.log| && !L.NeverAdmitted(n, k, limit)
  }

  lemma OthersSplit(s: System, client: Client)
    requires client in s.hosts
    ensures |R.OtherRows(s.tables.claims, client)| ==
      |RowsAmong(s.tables.claims, s.hosts.Keys - {client})| + |ForeignRows(s)|
  {
    hide SystemInv;
    var rest := R.OtherRows(s.tables.claims, client);
    var own, foreign := RowsAmong(s.tables.claims, s.hosts.Keys - {client}), ForeignRows(s);
    assert rest.Keys == own.Keys + foreign.Keys && own.Keys !! foreign.Keys;
    assert |rest.Keys| == |rest| && |own.Keys| == |own| && |foreign.Keys| == |foreign|;
  }

  lemma RoomForHost(s: System, client: Client, limit: nat)
    requires Drainable(s, limit) && client in s.hosts
    ensures |R.OtherRows(s.tables.claims, client)| + limit <= R.SOURCE_CAPS.total
  {
    hide SystemInv;
    hide PendingAdmissible;
    hide RowsAmong;
    hide ForeignRows;
    hide R.OtherRows;
    hide R.ClientRows;
    hide Share;
    OthersSplit(s, client);
    FewRowsAmong(s.tables.claims, s.hosts.Keys - {client}, limit);
    assert |s.hosts.Keys| == |s.hosts|;
    OneMore(|s.hosts| - 1, limit);
  }

  // ---------------------------------------------------------------- one round

  lemma HeadIsLogged(s: System, client: Client, when: real)
    requires Ready(s, client, when)
    ensures HeadOf(s, client) >= 1
    ensures var n, k: nat := s.hosts[client].node, HeadOf(s, client);
            && k in S.Pending(n.sender) && 1 <= k <= |n.log| && HeadMessage(s, client) == Message(client, n.log[k - 1])
            && k <= R.LastSeq(s.tables, client) + 1
            && SR.NodeInv(n) && Agrees(s.tables, client, n)
  {
    hide SI.StoreOk;
    hide Mirror;
    hide Remembers;
    hide SL.ClaimsOk;
    HeadIsPending(s, client, when);
    assert HostOk(s.tables, client, s.hosts[client]);
    AgreesBounds(s.tables, client, s.hosts[client].node);
  }

  lemma OldHeadSucceeds(s: System, client: Client, k: nat, limit: nat, when: real)
    requires client in s.hosts && SR.NodeInv(s.hosts[client].node) && Agrees(s.tables, client, s.hosts[client].node)
    requires 1 <= k <= |s.hosts[client].node.log| && k <= R.LastSeq(s.tables, client)
    requires !L.NeverAdmitted(s.hosts[client].node, k, limit)
    ensures var m := Message(client, s.hosts[client].node.log[k - 1]);
            R.Valid(RequestOf(m, limit), limit) && !Received(s, m, limit, when).1.Refused?
  {
    hide Mirror;
    hide SR.NodeInv;
    hide R.Apply;
    hide R.Valid;
    hide L.AdmissibleJails;
    hide ViewAt;
    hide SL.LogOk;
    hide Remembers;
    var n := s.hosts[client].node;
    A.NumbersAreIndices(n, k);
    LogIsHonest(n, n.log[k - 1]);
    L.EmittedIsValidIff(n, client, n.log[k - 1], limit);
    LoggedIsConsistent(s.tables, client, n, n.log[k - 1], limit);
    OldRequestAnswers(s.tables, client, n.log[k - 1], limit, when);
  }

  lemma HeadSucceeds(s: System, client: Client, limit: nat, when: real)
    requires Drainable(s, limit) && Ready(s, client, when)
    ensures HeadOf(s, client) in s.hosts[client].node.sender.outbox && SendSucceeds(s, client, limit, when)
  {
    hide SystemInv;
    hide SR.NodeInv;
    hide Agrees;
    hide R.Valid;
    hide Received;
    hide L.NeverAdmitted;
    HeadIsLogged(s, client, when);
    HeadIsPending(s, client, when);
    var n, k: nat := s.hosts[client].node, HeadOf(s, client);
    if k <= R.LastSeq(s.tables, client) {
      OldHeadSucceeds(s, client, k, limit, when);
    } else {
      RoomForHost(s, client, limit);
      AdmittedIsSmall(n, k, limit);
      L.OtherwiseApplied(s, client, k, limit, when);
    }
  }

  lemma AdmittedIsSmall(n: SR.Node, k: nat, limit: nat)
    requires 1 <= k <= |n.log| && !L.NeverAdmitted(n, k, limit)
    ensures |ViewAt(n, k)| <= limit
  {
  }

  /** A round touches only its own host and what its request does to the tables. */
  lemma RoundEffect(s: System, client: Client, limit: nat, when: real)
    requires Ready(s, client, when)
    requires HeadOf(s, client) in s.hosts[client].node.sender.outbox && SendSucceeds(s, client, limit, when)
    ensures var after := Round(s, client, limit, when);
            && after.hosts.Keys == s.hosts.Keys && after.hosts[client].node.log == s.hosts[client].node.log
            && (forall d | d in s.hosts && d != client :: after.hosts[d] == s.hosts[d])
            && after.tables == Received(s, HeadMessage(s, client), limit, when).0
  {
    hide SystemInv;
    hide R.Apply;
    hide R.Valid;
    HeadIsPending(s, client, when);
    var m := HeadMessage(s, client);
    var sent := Sent(s, client, when);
    assert sent.tables == s.tables && m in sent.inflight;
  }

  lemma RoundKeepsRows(s: System, m: Message, limit: nat, when: real)
    requires m.client in s.hosts && |R.ClientRows(s.tables.claims, m.client)| <= limit
    ensures var after := s.(tables := Received(s, m, limit, when).0);
            && |R.ClientRows(after.tables.claims, m.client)| <= limit
            && (forall d | d != m.client :: R.ClientRows(after.tables.claims, d) == R.ClientRows(s.tables.claims, d))
            && ForeignRows(after) == ForeignRows(s)
  {
    hide R.Apply;
    var request, claims := RequestOf(m, limit), Received(s, m, limit, when).0.claims;
    RL.ApplyIsExact(s.tables, request, R.SOURCE_CAPS, when, m.client);
    forall d | d != m.client
      ensures R.ClientRows(claims, d) == R.ClientRows(s.tables.claims, d)
    {
      RL.ApplyIsExact(s.tables, request, R.SOURCE_CAPS, when, d);
    }
    forall id: R.ClaimId | id.client !in s.hosts
      ensures id in claims <==> id in s.tables.claims
      ensures id in claims ==> claims[id] == s.tables.claims[id]
    {
      assert id in claims <==> id in R.ClientRows(claims, id.client);
      assert id in s.tables.claims <==> id in R.ClientRows(s.tables.claims, id.client);
    }
  }

  lemma RoundKeepsDrainable(s: System, client: Client, limit: nat, when: real)
    requires Drainable(s, limit) && Ready(s, client, when)
    requires HeadOf(s, client) in s.hosts[client].node.sender.outbox && SendSucceeds(s, client, limit, when)
    ensures Drainable(Round(s, client, limit, when), limit)
    ensures var after := Round(s, client, limit, when);
            forall d | d in s.hosts && d != client :: d in after.hosts && PendingOf(after, d) == PendingOf(s, d)
  {
    hide SystemInv;
    hide R.Valid;
    hide Received;
    hide Round;
    hide SendSucceeds;
    hide L.NeverAdmitted;
    hide R.ClientRows;
    SuccessfulRound(s, client, limit, when);
    RoundEffect(s, client, limit, when);
    RoundKeepsRows(s, HeadMessage(s, client), limit, when);
    var after := Round(s, client, limit, when);
    assert |after.hosts.Keys| == |after.hosts| && |s.hosts.Keys| == |s.hosts|;
    assert ForeignRows(after) == ForeignRows(s.(tables := after.tables));
    SameLogSameVerdict(s.hosts[client].node, after.hosts[client].node, limit);
  }

  lemma SameLogSameVerdict(n: SR.Node, next: SR.Node, limit: nat)
    requires n.log == next.log && PendingAdmissible(n, limit) && S.Pending(next.sender) <= S.Pending(n.sender)
    ensures PendingAdmissible(next, limit)
  {
    hide L.AdmissibleJails;
    hide L.Size;
  }

  // ---------------------------------------------------------------- one host

  predicate NoRecords(moves: seq<Move>) {
    forall m | m in moves :: !m.Local?
  }

  /** The host is idle and nothing of it waits. */
  ghost predicate Idle(s: System, client: Client, when: real) {
    client in s.hosts && s.hosts[client].working.None? && AllDue(s, client, when)
  }

  lemma OneRound(s: System, client: Client, limit: nat, when: real) returns (round: seq<Move>)
    requires Drainable(s, limit) && Idle(s, client, when) && PendingOf(s, client) != {}
    ensures var after := Run(s, round);
            && NoRecords(round) && Drainable(after, limit) && Idle(after, client, when)
            && after.hosts.Keys == s.hosts.Keys && |PendingOf(after, client)| < |PendingOf(s, client)|
            && forall d | d in s.hosts && d != client :: PendingOf(after, d) == PendingOf(s, d)
  {
    hide *;
    IdleIsReady(s, client, limit, when);
    HeadSucceeds(s, client, limit, when);
    SuccessfulRound(s, client, limit, when);
    RoundKeepsDrainable(s, client, limit, when);
    RoundEffect(s, client, limit, when);
    HeadIsLogged(s, client, when);
    RoundIsRun(s, client, limit, when);
    var after := Round(s, client, limit, when);
    IdleHasParts(after, client, when);
    round := RoundMoves(client, HeadOf(s, client), HeadMessage(s, client), limit, when);
    RoundRecordsNothing(client, HeadOf(s, client), HeadMessage(s, client), limit, when);
  }

  lemma IdleHasParts(s: System, client: Client, when: real)
    ensures Idle(s, client, when) <==> client in s.hosts && s.hosts[client].working.None? && AllDue(s, client, when)
  {
    hide AllDue;
  }

  lemma RoundRecordsNothing(client: Client, id: nat, m: Message, limit: nat, when: real)
    ensures NoRecords(RoundMoves(client, id, m, limit, when))
  {
  }

  lemma IdleIsReady(s: System, client: Client, limit: nat, when: real)
    requires Drainable(s, limit) && Idle(s, client, when) && PendingOf(s, client) != {}
    ensures client in s.hosts && Ready(s, client, when)
  {
    hide SystemInv;
    hide PendingAdmissible;
    hide R.ClientRows;
  }

  lemma {:induction false} RoundsDrain(s: System, client: Client, limit: nat, when: real) returns (moves: seq<Move>)
    requires Drainable(s, limit) && Idle(s, client, when)
    ensures NoRecords(moves) && Drainable(Run(s, moves), limit) && Run(s, moves).hosts.Keys == s.hosts.Keys
    ensures PendingOf(Run(s, moves), client) == {}
    ensures forall d | d in s.hosts && d != client :: PendingOf(Run(s, moves), d) == PendingOf(s, d)
    decreases |PendingOf(s, client)|
  {
    hide Drainable;
    hide AllDue;
    hide PendingOf;
    hide Perform;
    moves := [];
    if PendingOf(s, client) != {} {
      var round := OneRound(s, client, limit, when);
      var rest := RoundsDrain(Run(s, round), client, limit, when);
      RunJoins(s, round, rest);
      moves := round + rest;
    }
  }

  lemma RestartKeepsDrainable(s: System, client: Client, limit: nat)
    requires Drainable(s, limit) && client in s.hosts
    ensures var after := Perform(s, Restart(client));
            && Drainable(after, limit) && after.hosts.Keys == s.hosts.Keys && after.hosts[client].working.None?
            && forall d | d in s.hosts :: PendingOf(after, d) == PendingOf(s, d)
  {
    hide SystemInv;
    hide L.NeverAdmitted;
    hide R.ClientRows;
    hide SR.Next;
    hide S.Pending;
    hide SR.NodeInv;
    var after := Perform(s, Restart(client));
    PerformKeepsInv(s, Restart(client));
    HostIsOk(s, client);
    QuietMove(s.hosts[client].node, SR.Reopened);
    LogGrowsByOne(s, Restart(client), client);
    ReopenedSameLog(s.hosts[client].node);
    SameLogSameVerdict(s.hosts[client].node, after.hosts[client].node, limit);
    assert |after.hosts.Keys| == |after.hosts| && |s.hosts.Keys| == |s.hosts|;
    assert ForeignRows(after) == ForeignRows(s);
  }

  lemma ReopenedSameLog(n: SR.Node)
    ensures SR.Next(n, SR.Reopened).log == n.log
  {
  }

  /** A host is restarted, which ends whatever its worker was doing, and then drained. */
  lemma HostDrains(s: System, client: Client, limit: nat) returns (moves: seq<Move>)
    requires Drainable(s, limit) && client in s.hosts
    ensures NoRecords(moves) && Drainable(Run(s, moves), limit) && Run(s, moves).hosts.Keys == s.hosts.Keys
    ensures PendingOf(Run(s, moves), client) == {}
    ensures forall d | d in s.hosts && d != client :: PendingOf(Run(s, moves), d) == PendingOf(s, d)
  {
    hide Drainable;
    hide AllDue;
    hide PendingOf;
    hide Perform;
    RestartKeepsDrainable(s, client, limit);
    OneMove(s, Restart(client));
    var idle := Perform(s, Restart(client));
    var when := AllDueEventually(idle, client);
    var rest := RoundsDrain(idle, client, limit, when);
    RunJoins(s, [Restart(client)], rest);
    moves := [Restart(client)] + rest;
  }

  // ---------------------------------------------------------------- all hosts

  lemma {:induction false} HostsDrain(s: System, todo: set<Client>, limit: nat) returns (moves: seq<Move>)
    requires Drainable(s, limit) && todo <= s.hosts.Keys
    requires forall c | c in s.hosts && c !in todo :: PendingOf(s, c) == {}
    ensures NoRecords(moves) && Run(s, moves).hosts.Keys == s.hosts.Keys
    ensures forall c | c in s.hosts :: PendingOf(Run(s, moves), c) == {}
    decreases |todo|
  {
    hide Drainable;
    hide PendingOf;
    hide Perform;
    moves := [];
    if todo != {} {
      var c :| c in todo;
      var first := HostDrains(s, c, limit);
      var rest := HostsDrain(Run(s, first), todo - {c}, limit);
      RunJoins(s, first, rest);
      moves := first + rest;
    }
  }

  /** From every reachable state whose undelivered payloads can be admitted under one limit, and whose total
      has room for that many rows of every host, there is a run in which nobody records anything new and
      every host takes all its answers. */
  lemma AnsweredRunExists(s: System, limit: nat) returns (moves: seq<Move>)
    requires Drainable(s, limit)
    ensures AllAnswered(s, moves)
  {
    hide PendingOf;
    hide Answers;
    hide Run;
    moves := HostsDrain(s, s.hosts.Keys, limit);
    hide Drainable;
    forall c | c in s.hosts
      ensures Quiet(moves, c) && Answers(s, moves, c) == |PendingOf(s, c)|
    {
      AnsweredRunConverges(s, moves, c);
    }
  }
}
