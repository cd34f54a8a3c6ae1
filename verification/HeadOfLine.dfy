/** Why one payload that the receiver will never admit stops its sender for good. */
module HeadOfLine {
  import A = Admission
  import R = ReceiverModel
  import RL = ReceiverLaws
  import opened Replication
  import S = SenderModel
  import SI = StoreInvariant
  import SL = SenderLaws
  import SR = SenderRuns
  import opened Wire

  function JailsOf(payload: Payload): set<Jail> {
    match payload
    case EventPayload(e) => {e.jail}
    case SnapshotPayload(_, _, claims) => set c | c in claims :: c.jail
  }

  predicate AdmissibleJails(payload: Payload) {
    forall jail | jail in JailsOf(payload) :: ReceiverJail(jail)
  }

  /** How many entries the request has, which the receiver's limit bounds. */
  function Size(payload: Payload): nat {
    match payload
    case EventPayload(_) => 1
    case SnapshotPayload(_, _, claims) => |claims|
  }

  lemma DistinctForReceiver(claims: seq<Claim>)
    requires SL.DistinctClaims(claims)
    ensures R.DistinctIdentities(claims)
  {
  }

  lemma SingleEventIsValid(e: Event, limit: nat)
    requires Admissible(e.ip) && e.permanent.Some? && 0 < e.number
    ensures R.ValidEvents([e], limit) <==> ReceiverJail(e.jail) && e.number <= MAX_NUMBER && 1 <= limit
  {
    hide Admissible;
    hide ReceiverJail;
    assert e in [e];
  }

  /** What an honest sender emits passes validation exactly if the receiver admits its jails, its number
      fits 63 bits, and it is not too long; addresses, lifetimes and identities never fail. */
  lemma EmittedIsValidIff(n: SR.Node, client: Client, payload: Payload, limit: nat)
    requires SR.NodeInv(n) && IsLogged(n, payload)
    ensures R.Valid(RequestOf(Message(client, payload), limit), limit) <==>
      AdmissibleJails(payload) && payload.Number() <= MAX_NUMBER && Size(payload) <= limit
  {
    hide SR.NodeInv;
    hide Admissible;
    hide ReceiverJail;
    LogIsHonest(n, payload);
    match payload
    case EventPayload(e) => SingleEventIsValid(e, limit);
    case SnapshotPayload(id, number, claims) => DistinctForReceiver(claims);
  }

  // ---------------------------------------------------------------- payloads that are never admitted

  /** No validation, no client limit up to the cap and no total ever lets payload k pass. */
  ghost predicate NeverAdmitted(n: SR.Node, k: nat, cap: nat)
    requires 1 <= k <= |n.log|
  {
    || !AdmissibleJails(n.log[k - 1]) || k > MAX_NUMBER || Size(n.log[k - 1]) > cap
    || |ViewAt(n, k)| > cap || |ViewAt(n, k)| > R.SOURCE_CAPS.total
  }

  /** The receiver has not passed number k of the client's log, and never will. */
  ghost predicate Stuck(s: System, client: Client, k: nat, cap: nat) {
    && SystemInv(s) && client in s.hosts
    && 1 <= k <= |s.hosts[client].node.log| && R.LastSeq(s.tables, client) < k
    && NeverAdmitted(s.hosts[client].node, k, cap)
  }

  /** The configured limit of the client never exceeds the cap. */
  predicate LimitUpTo(m: Move, client: Client, cap: nat) {
    m.Deliver? && m.message.client == client ==> m.limit <= cap
  }

  /** A request that arrives raises no number but its sender's, and that by one, to its own, if it was
      applied. */
  lemma ArrivalRaisesByOne(s: System, m: Message, limit: nat, now: real, client: Client)
    requires SystemInv(s) && m in s.inflight && R.Valid(RequestOf(m, limit), limit)
    ensures var before, after := R.LastSeq(s.tables, client), R.LastSeq(Received(s, m, limit, now).0, client);
            after == before || (m.client == client && after == before + 1 == m.payload.Number()
                                && Received(s, m, limit, now).1.Applied?)
  {
    hide *;
    RequestHasParts(m, limit);
    HonestRequestNeverConflicts(s, m, limit, now);
    ReceivedIsApplied(s, m, limit, now);
    RL.ApplyIsExact(s.tables, RequestOf(m, limit), R.SOURCE_CAPS, now, client);
  }

  lemma RequestHasParts(m: Message, limit: int)
    ensures RequestOf(m, limit).client == m.client && RL.High(RequestOf(m, limit)) == m.payload.Number()
  {
  }

  lemma ReceivedIsApplied(s: System, m: Message, limit: int, now: real)
    ensures Received(s, m, limit, now) == R.Apply(s.tables, RequestOf(m, limit), R.SOURCE_CAPS, now)
  {
    hide R.Apply;
  }

  lemma DeliveredTables(s: System, m: Message, limit: nat, now: real, answered: bool)
    ensures Perform(s, Deliver(m, limit, now, answered)).tables ==
      if m in s.inflight && R.Valid(RequestOf(m, limit), limit) then Received(s, m, limit, now).0 else s.tables
  {
    hide Received;
    hide R.Valid;
  }

  lemma MessageIsLogged(s: System, m: Message)
    requires SystemInv(s) && m in s.inflight
    ensures m.client in s.hosts && SR.NodeInv(s.hosts[m.client].node) && IsLogged(s.hosts[m.client].node, m.payload)
  {
    hide Agrees;
    assert MessageOk(s, m);
    assert HostOk(s.tables, m.client, s.hosts[m.client]);
  }

  /** If the receiver's number reaches k by this request, payload k is admitted after all. */
  lemma AppliedIsAdmitted(s: System, m: Message, limit: nat, now: real, client: Client, k: nat, cap: nat)
    requires SystemInv(s) && m in s.inflight && m.client == client && R.Valid(RequestOf(m, limit), limit)
    requires m.payload.Number() == k == R.LastSeq(s.tables, client) + 1 && limit <= cap
    requires Received(s, m, limit, now).1.Applied?
    ensures client in s.hosts && 1 <= k <= |s.hosts[client].node.log|
    ensures !NeverAdmitted(s.hosts[client].node, k, cap)
  {
    hide SystemInv;
    hide R.Valid;
    hide AdmissibleJails;
    hide Received;
    hide ViewAt;
    MessageIsLogged(s, m);
    var n := s.hosts[client].node;
    EmittedIsValidIff(n, client, m.payload, limit);
    assert m == Message(client, n.log[k - 1]);
    A.NextIsAppliedIff(s, client, k, limit, now);
  }

  /** Every other payload is applied when it comes next, if the limit is the cap and the rows of other
      clients leave room. */
  lemma OtherwiseApplied(s: System, client: Client, k: nat, cap: nat, now: real)
    requires SystemInv(s) && client in s.hosts && k == R.LastSeq(s.tables, client) + 1 <= |s.hosts[client].node.log|
    requires !NeverAdmitted(s.hosts[client].node, k, cap)
    requires |R.OtherRows(s.tables.claims, client)| + |ViewAt(s.hosts[client].node, k)| <= R.SOURCE_CAPS.total
    ensures var m := Message(client, s.hosts[client].node.log[k - 1]);
            R.Valid(RequestOf(m, cap), cap) && Received(s, m, cap, now).1.Applied?
  {
    hide SI.StoreOk;
    hide Agrees;
    hide SR.NodeInv;
    hide R.Valid;
    hide AdmissibleJails;
    hide Received;
    hide ViewAt;
    assert HostOk(s.tables, client, s.hosts[client]);
    var n := s.hosts[client].node;
    A.NumbersAreIndices(n, k);
    EmittedIsValidIff(n, client, n.log[k - 1], cap);
    A.NextIsAppliedIff(s, client, k, cap, now);
  }

  lemma StuckHasParts(s: System, client: Client, k: nat, cap: nat)
    requires Stuck(s, client, k, cap)
    ensures SystemInv(s) && client in s.hosts && 1 <= k <= |s.hosts[client].node.log|
    ensures R.LastSeq(s.tables, client) < k && NeverAdmitted(s.hosts[client].node, k, cap)
  {
  }

  lemma DeliveryStaysBelow(
    s: System, m: Message, limit: nat, now: real, answered: bool, client: Client, k: nat, cap: nat)
    requires Stuck(s, client, k, cap) && (m.client == client ==> limit <= cap)
    ensures R.LastSeq(Perform(s, Deliver(m, limit, now, answered)).tables, client) < k
  {
    hide *;
    StuckHasParts(s, client, k, cap);
    DeliveredTables(s, m, limit, now, answered);
    if m in s.inflight && R.Valid(RequestOf(m, limit), limit) {
      ArrivalRaisesByOne(s, m, limit, now, client);
      var last := R.LastSeq(s.tables, client);
      if m.client == client && m.payload.Number() == k == last + 1 && Received(s, m, limit, now).1.Applied? {
        AppliedIsAdmitted(s, m, limit, now, client, k, cap);
      }
    }
  }

  lemma LongerLogSameVerdict(n: SR.Node, next: SR.Node, k: nat, cap: nat)
    requires 1 <= k <= |n.log| && n.log <= next.log
    ensures NeverAdmitted(next, k, cap) == NeverAdmitted(n, k, cap)
  {
    hide AdmissibleJails;
    hide Size;
    assert next.log[..k] == n.log[..k];
  }

  lemma MoveStaysStuck(s: System, m: Move, client: Client, k: nat, cap: nat)
    requires Stuck(s, client, k, cap) && LimitUpTo(m, client, cap)
    ensures Stuck(Perform(s, m), client, k, cap)
  {
    hide SystemInv;
    hide NeverAdmitted;
    hide R.Apply;
    hide R.Valid;
    PerformKeepsInv(s, m);
    LogGrowsByOne(s, m, client);
    LongerLogSameVerdict(s.hosts[client].node, Perform(s, m).hosts[client].node, k, cap);
    match m
    case Deliver(message, limit, now, answered) =>
      DeliveryStaysBelow(s, message, limit, now, answered, client, k, cap);
    case Foreign(request, maximum, now) => RL.ApplyIsExact(s.tables, request, R.SOURCE_CAPS, now, client);
    case _ =>
  }

  lemma {:induction false} RunStaysStuck(s: System, moves: seq<Move>, client: Client, k: nat, cap: nat)
    requires Stuck(s, client, k, cap) && forall m | m in moves :: LimitUpTo(m, client, cap)
    ensures Stuck(Run(s, moves), client, k, cap)
  {
    hide Stuck;
    hide Perform;
    hide LimitUpTo;
    if moves != [] {
      assert moves[|moves| - 1] in moves;
      RunStaysStuck(s, moves[..|moves| - 1], client, k, cap);
      MoveStaysStuck(Run(s, moves[..|moves| - 1]), moves[|moves| - 1], client, k, cap);
    }
  }

  lemma UnpassedIsPending(s: System, client: Client, number: nat)
    requires SystemInv(s) && client in s.hosts
    requires R.LastSeq(s.tables, client) < number <= |s.hosts[client].node.log|
    ensures number in S.Pending(s.hosts[client].node.sender)
  {
    hide Mirror;
    hide Remembers;
    hide SL.ClaimsOk;
    assert HostOk(s.tables, client, s.hosts[client]);
    AgreesBounds(s.tables, client, s.hosts[client].node);
  }

  /** The receiver is below number k, and k and all later numbers are undelivered. */
  ghost predicate BlockedAt(s: System, client: Client, k: nat) {
    && client in s.hosts && R.LastSeq(s.tables, client) < k <= |s.hosts[client].node.log|
    && forall number | k <= number <= |s.hosts[client].node.log| :: number in S.Pending(s.hosts[client].node.sender)
  }

  /** A payload that no validation and no limit will ever admit is never delivered, and since the worker
      skips no number, neither is anything after it, not even what would make room for it: over every run
      in which the client's limit stays up to the cap, it and all later numbers stay undelivered. */
  lemma InadmissibleBlocksForEver(s: System, moves: seq<Move>, client: Client, k: nat, cap: nat)
    requires SystemInv(s) && client in s.hosts
    requires 1 <= k <= |s.hosts[client].node.log| && R.LastSeq(s.tables, client) < k
    requires NeverAdmitted(s.hosts[client].node, k, cap) && forall m | m in moves :: LimitUpTo(m, client, cap)
    ensures BlockedAt(Run(s, moves), client, k)
  {
    hide SystemInv;
    hide Run;
    hide NeverAdmitted;
    hide LimitUpTo;
    hide S.Pending;
    RunStaysStuck(s, moves, client, k, cap);
    var after := Run(s, moves);
    forall number | k <= number <= |after.hosts[client].node.log|
      ensures number in S.Pending(after.hosts[client].node.sender)
    {
      UnpassedIsPending(after, client, number);
    }
  }

  function LargestLimit(moves: seq<Move>): nat {
    if moves == [] then 0
    else
      var rest := LargestLimit(moves[1..]);
      if moves[0].Deliver? && moves[0].limit > rest then moves[0].limit else rest
  }

  lemma {:induction false} NoLimitIsLarger(moves: seq<Move>, client: Client)
    ensures forall m | m in moves :: LimitUpTo(m, client, LargestLimit(moves))
    decreases |moves|
  {
    if moves != [] {
      NoLimitIsLarger(moves[1..], client);
      assert moves == [moves[0]] + moves[1..];
    }
  }

  /** A payload in a jail that the receiver refuses blocks its sender for ever, whatever the limits. */
  lemma RefusedJailBlocksForEver(s: System, moves: seq<Move>, client: Client, k: nat)
    requires SystemInv(s) && client in s.hosts
    requires 1 <= k <= |s.hosts[client].node.log| && R.LastSeq(s.tables, client) < k
    requires !AdmissibleJails(s.hosts[client].node.log[k - 1])
    ensures BlockedAt(Run(s, moves), client, k)
  {
    hide SystemInv;
    hide Run;
    hide AdmissibleJails;
    hide BlockedAt;
    hide LimitUpTo;
    NoLimitIsLarger(moves, client);
    InadmissibleBlocksForEver(s, moves, client, k, LargestLimit(moves));
  }

  /** A ban that comes next when the client already holds as many rows as its limit blocks its sender for
      ever: only the client's own later requests could free a row. */
  lemma FullClientBlocksForEver(s: System, moves: seq<Move>, client: Client, k: nat, cap: nat)
    requires SystemInv(s) && client in s.hosts
    requires 1 <= k <= |s.hosts[client].node.log| && R.LastSeq(s.tables, client) == k - 1
    requires var payload := s.hosts[client].node.log[k - 1]; payload.EventPayload? && payload.event.op.Ban?
    requires |R.ClientRows(s.tables.claims, client)| >= cap && forall m | m in moves :: LimitUpTo(m, client, cap)
    ensures BlockedAt(Run(s, moves), client, k)
  {
    hide Run;
    hide LimitUpTo;
    hide BlockedAt;
    BanNeedsRoom(s, client, k);
    hide SystemInv;
    InadmissibleBlocksForEver(s, moves, client, k, cap);
  }

  lemma BanNeedsRoom(s: System, client: Client, k: nat)
    requires SystemInv(s) && client in s.hosts
    requires 1 <= k <= |s.hosts[client].node.log| && R.LastSeq(s.tables, client) == k - 1
    requires var payload := s.hosts[client].node.log[k - 1]; payload.EventPayload? && payload.event.op.Ban?
    ensures |ViewAt(s.hosts[client].node, k)| == |R.ClientRows(s.tables.claims, client)| + 1
  {
    hide SI.StoreOk;
    hide SR.NodeInv;
    hide Mirror;
    hide Remembers;
    hide R.ClientRows;
    hide SL.LogOk;
    assert HostOk(s.tables, client, s.hosts[client]);
    var n := s.hosts[client].node;
    A.NumbersAreIndices(n, k);
    LogIsHonest(n, n.log[k - 1]);
    A.MirrorSize(client, R.ClientRows(s.tables.claims, client), ViewAt(n, k - 1));
    var e := n.log[k - 1].event;
    NewKeySize(ViewAt(n, k - 1), S.Key(e.jail, e.ip), e.banId);
  }

  lemma NewKeySize(view: map<S.Key, Uuid>, key: S.Key, banId: Uuid)
    requires key !in view
    ensures |view[key := banId]| == |view| + 1
  {
    var longer := view[key := banId];
    assert longer.Keys == view.Keys + {key};
    assert |longer.Keys| == |longer| && |view.Keys| == |view|;
  }

  // ---------------------------------------------------------------- the state is reachable

  /** One ban hook in a jail with a leading underscore is enough. */
  lemma RefusedJailIsReachable(client: Client, maxPending: nat, ip: Ip, banId: Uuid, eventId: Uuid, when: real)
    requires maxPending >= 1 && Admissible(ip)
    ensures var hook := SR.Hook(Ban, Jail("_db"), ip, banId, eventId, when);
            var s := Run(Initial({client}, maxPending), [Local(client, hook)]);
            && SystemInv(s) && client in s.hosts && |s.hosts[client].node.log| == 1
            && R.LastSeq(s.tables, client) == 0 && !AdmissibleJails(s.hosts[client].node.log[0])
  {
    hide Admissible;
    hide SenderJail;
    hide ReceiverJail;
    hide SystemInv;
    JailRefusedByReceiver();
    var hook := SR.Hook(Ban, Jail("_db"), ip, banId, eventId, when);
    var start := Initial({client}, maxPending);
    InitialInv({client}, maxPending);
    PerformKeepsInv(start, Local(client, hook));
    assert [Local(client, hook)][..0] == [];
    assert Run(start, []) == start;
    FirstBanIsLogged(maxPending, ip, banId, eventId, when);
  }

  lemma FirstBanIsLogged(maxPending: nat, ip: Ip, banId: Uuid, eventId: Uuid, when: real)
    requires maxPending >= 1 && Admissible(ip)
    ensures var hook := SR.Hook(Ban, Jail("_db"), ip, banId, eventId, when);
            var log := SR.Next(SR.Node(S.Opened(maxPending), []), hook).log;
            |log| == 1 && log[0].EventPayload? && log[0].event.jail == Jail("_db")
  {
    hide Admissible;
    JailRefusedByReceiver();
    hide SenderJail;
    assert S.Pending(S.Opened(maxPending)) == {};
  }
}
