/** The whole replication system: any number of honest senders, a network that loses, repeats, delays
    and reorders requests and answers, one receiver, and restarts of either side at any time. */
module Replication {
  import B = BatchLaws
  import H = HistoryLaws
  import R = ReceiverModel
  import RL = ReceiverLaws
  import S = SenderModel
  import SI = StoreInvariant
  import SL = SenderLaws
  import SR = SenderRuns
  import opened Wire

  /** A sender host: durable state, and the row its worker is sending, which a crash forgets. */
  datatype Host = Host(node: SR.Node, working: Option<nat>)

  datatype Message = Message(client: Client, payload: Payload)
  datatype Ack = Ack(client: Client, number: nat)

  /** A request in `inflight` may arrive any number of times until it is dropped. */
  datatype System = System(hosts: map<Client, Host>, tables: R.Tables, inflight: set<Message>, acks: set<Ack>)

  datatype Move =
    | Local(client: Client, move: SR.Move)
    | Send(client: Client, id: nat, when: real)
    | Deliver(message: Message, limit: nat, now: real, answered: bool)
    | Foreign(request: R.Request, maximum: nat, now: real)
    | Drop(message: Message)
    | LoseAck(ack: Ack)
    | Acked(client: Client, when: real)
    | GiveUp(client: Client, until: real)
    | Restart(client: Client)
    | Forget(events: set<R.EntryId>, snapshots: set<R.EntryId>)

  function RequestOf(m: Message, limit: int): R.Request {
    match m.payload
    case EventPayload(e) => R.Events(m.client, [e], limit)
    case SnapshotPayload(id, number, claims) => R.Replace(m.client, id, number, claims, limit)
  }

  ghost function Initial(clients: set<Client>, maxPending: nat): System {
    System(map c | c in clients :: Host(SR.Node(S.Opened(maxPending), []), None), R.EMPTY, {}, {})
  }

  function Received(s: System, m: Message, limit: int, now: real): (R.Tables, R.Outcome) {
    R.Apply(s.tables, RequestOf(m, limit), R.SOURCE_CAPS, now)
  }

  ghost function WithHost(s: System, client: Client, host: Host): System {
    s.(hosts := s.hosts[client := host])
  }

  /** What another process of the host does beside the worker: it opens the database, which prunes
      delivered rows, and records a hook or a snapshot. */
  predicate IsLocal(move: SR.Move) {
    move.Hook? || move.Reconcile? || move.Reopened?
  }

  /** One move. A move that is not possible in the state changes nothing. */
  ghost function Perform(s: System, m: Move): System {
    match m
    case Local(c, move) =>
      if c in s.hosts && IsLocal(move)
      then WithHost(s, c, s.hosts[c].(node := SR.Next(s.hosts[c].node, move)))
      else s
    case Send(c, id, when) =>
      if c in s.hosts && s.hosts[c].working.None? && S.IsDue(s.hosts[c].node.sender, id, when)
      then WithHost(s, c, s.hosts[c].(working := Some(id))).(
             inflight := s.inflight + {Message(c, s.hosts[c].node.sender.outbox[id].payload)})
      else s
    case Deliver(message, limit, now, answered) =>
      if message in s.inflight && R.Valid(RequestOf(message, limit), limit)
      then
        var (tables, r) := Received(s, message, limit, now);
        s.(tables := tables,
           acks := if answered && !r.Refused? then s.acks + {Ack(message.client, message.payload.Number())} else s.acks)
      else s
    case Foreign(request, maximum, now) =>
      if request.client !in s.hosts && R.Valid(request, maximum)
      then s.(tables := R.Apply(s.tables, request, R.SOURCE_CAPS, now).0)
      else s
    case Drop(message) => s.(inflight := s.inflight - {message})
    case LoseAck(ack) => s.(acks := s.acks - {ack})
    case Acked(c, when) =>
      if c in s.hosts && s.hosts[c].working.Some? && Ack(c, s.hosts[c].working.value) in s.acks
      then WithHost(s, c, Host(SR.Next(s.hosts[c].node, SR.Delivered(s.hosts[c].working.value, when)), None))
      else s
    case GiveUp(c, until) =>
      if c in s.hosts && s.hosts[c].working.Some? && s.hosts[c].working.value in s.hosts[c].node.sender.outbox
      then
        var id := s.hosts[c].working.value;
        var attempts := s.hosts[c].node.sender.outbox[id].attempts + 1;
        WithHost(s, c, Host(SR.Next(s.hosts[c].node, SR.Retried(id, attempts, until)), None))
      else s
    case Restart(c) =>
      if c in s.hosts then WithHost(s, c, Host(SR.Next(s.hosts[c].node, SR.Reopened), None)) else s
    case Forget(events, snapshots) => s.(tables := R.Prune(s.tables, events, snapshots))
  }

  ghost function Run(s: System, moves: seq<Move>): System {
    if moves == [] then s else Perform(Run(s, moves[..|moves| - 1]), moves[|moves| - 1])
  }

  // ---------------------------------------------------------------- agreement of one client

  /** The rows are exactly the inverse of the view: one permanent row without expiry for each open
      claim, keyed by its identity, and no other row. */
  ghost predicate Mirror(client: Client, rows: map<R.ClaimId, R.ClaimRow>, view: map<S.Key, Uuid>) {
    && (forall k | k in view ::
          var id := R.ClaimId(client, k.jail, view[k]);
          id in rows && rows[id] == R.ClaimRow(k.ip, true, None))
    && (forall id | id in rows ::
          id.client == client && S.Key(id.jail, rows[id].ip) in view && view[S.Key(id.jail, rows[id].ip)] == id.banId)
  }

  /** The claims that a sender had open right after it committed the given number. */
  ghost function ViewAt(n: SR.Node, number: nat): map<S.Key, Uuid>
    requires number <= |n.log|
  {
    SL.View(n.log[..number])
  }

  /** What the receiver remembers of the client is what the client emitted. */
  ghost predicate Remembers(t: R.Tables, client: Client, log: seq<Payload>) {
    && (forall k | k in t.events && k.client == client ::
          var e := t.events[k].event;
          1 <= e.number <= |log| && log[e.number - 1] == EventPayload(e) && k.id == e.id)
    && (forall k | k in t.snapshots && k.client == client ::
          var row := t.snapshots[k];
          1 <= row.number <= |log| && log[row.number - 1] == SnapshotPayload(k.id, row.number, row.claims))
  }

  ghost predicate Agrees(t: R.Tables, client: Client, n: SR.Node) {
    var last := R.LastSeq(t, client);
    && SL.Base(n.sender) <= last <= |n.log|
    && Mirror(client, R.ClientRows(t.claims, client), ViewAt(n, last))
    && Remembers(t, client, n.log)
  }

  ghost predicate IsLogged(n: SR.Node, payload: Payload) {
    1 <= payload.Number() <= |n.log| && n.log[payload.Number() - 1] == payload
  }

  ghost predicate HostOk(t: R.Tables, client: Client, h: Host) {
    && SR.NodeInv(h.node) && Agrees(t, client, h.node)
    && (h.working.Some? ==> SR.IsHead(h.node.sender, h.working.value))
  }

  /** A request on its way is one the sender emitted, at most one step ahead of the receiver. */
  ghost predicate MessageOk(s: System, m: Message) {
    && m.client in s.hosts && IsLogged(s.hosts[m.client].node, m.payload)
    && m.payload.Number() <= R.LastSeq(s.tables, m.client) + 1
  }

  ghost predicate AckOk(s: System, a: Ack) {
    a.client in s.hosts && a.number <= R.LastSeq(s.tables, a.client)
  }

  ghost predicate SystemInv(s: System) {
    && SI.StoreOk(s.tables, R.SOURCE_CAPS)
    && (forall c | c in s.hosts :: HostOk(s.tables, c, s.hosts[c]))
    && (forall m | m in s.inflight :: MessageOk(s, m))
    && (forall a | a in s.acks :: AckOk(s, a))
  }

  // ---------------------------------------------------------------- one payload on mirrored rows

  lemma {:induction false} FromClaimsIsExact(client: Client, claims: seq<Claim>)
    requires SL.DistinctClaims(claims) && forall c | c in claims :: c.permanent && c.expiresAt.None?
    ensures Mirror(client, R.RowsOfClaims(client, claims), SL.FromClaims(claims))
    ensures forall k | k in SL.FromClaims(claims) :: exists c | c in claims :: k == S.Key(c.jail, c.ip)
    ensures R.DistinctIdentities(claims)
  {
    if claims != [] {
      hide Mirror;
      hide R.RowsOfClaims;
      hide SL.FromClaims;
      var n := |claims| - 1;
      assert forall c | c in claims[..n] :: c in claims;
      FromClaimsIsExact(client, claims[..n]);
      AddClaimToMirror(client, claims);
    }
  }

  lemma AddClaimToMirror(client: Client, claims: seq<Claim>)
    requires claims != [] && SL.DistinctClaims(claims)
    requires var last := claims[|claims| - 1]; last.permanent && last.expiresAt.None?
    requires var front := claims[..|claims| - 1];
             && Mirror(client, R.RowsOfClaims(client, front), SL.FromClaims(front))
             && forall k | k in SL.FromClaims(front) :: exists c | c in front :: k == S.Key(c.jail, c.ip)
    ensures Mirror(client, R.RowsOfClaims(client, claims), SL.FromClaims(claims))
    ensures forall k | k in SL.FromClaims(claims) :: exists c | c in claims :: k == S.Key(c.jail, c.ip)
  {
    hide Mirror;
    var n := |claims| - 1;
    var front, last := claims[..n], claims[n];
    var rows, view := R.RowsOfClaims(client, front), SL.FromClaims(front);
    var id, key := R.ClaimId(client, last.jail, last.banId), S.Key(last.jail, last.ip);
    assert claims == front + [last];
    assert id !in rows && key !in view by {
      RL.RowsOfClaimsAreTheClients(client, front);
    }
    MirrorGrows(client, rows, view, key, last.banId);
  }

  lemma MirrorGrows(
    client: Client, rows: map<R.ClaimId, R.ClaimRow>, view: map<S.Key, Uuid>, key: S.Key, banId: Uuid)
    requires Mirror(client, rows, view)
    requires R.ClaimId(client, key.jail, banId) !in rows && key !in view
    ensures Mirror(client, rows[R.ClaimId(client, key.jail, banId) := R.ClaimRow(key.ip, true, None)], view[key := banId])
  {
  }

  /** A payload that is honest for the mirrored view meets no identity conflict and leaves the rows the
      mirror of the next view. */
  lemma EventOnMirror(client: Client, rows: map<R.ClaimId, R.ClaimRow>, view: map<S.Key, Uuid>, e: Event)
    requires Mirror(client, rows, view) && SL.Honest(view, EventPayload(e))
    ensures R.SameIpIfHeld(rows, R.ClaimId(client, e.jail, e.banId), e.ip)
    ensures Mirror(client, R.Effect(rows, client, e), SL.StepView(view, EventPayload(e)))
  {
    hide Admissible;
    hide SenderJail;
    var id, key := R.ClaimId(client, e.jail, e.banId), S.Key(e.jail, e.ip);
    if e.op.Ban? {
      assert forall held | held in rows :: S.Key(held.jail, rows[held].ip) in view;
    } else {
      assert id in rows && rows[id].ip == e.ip;
      assert forall k | k in view && k != key :: R.ClaimId(client, k.jail, view[k]) != id;
    }
  }

  lemma SnapshotOnMirror(
    client: Client, rows: map<R.ClaimId, R.ClaimRow>, view: map<S.Key, Uuid>, id: Uuid, number: nat, claims: seq<Claim>)
    requires Mirror(client, rows, view) && SL.Honest(view, SnapshotPayload(id, number, claims))
    ensures forall c | c in claims :: R.SameIpIfHeld(rows, R.ClaimId(client, c.jail, c.banId), c.ip)
    ensures Mirror(client, R.RowsOfClaims(client, claims), SL.FromClaims(claims)) && R.DistinctIdentities(claims)
  {
    hide Admissible;
    hide SenderJail;
    FromClaimsIsExact(client, claims);
    forall c | c in claims
      ensures R.SameIpIfHeld(rows, R.ClaimId(client, c.jail, c.banId), c.ip)
    {
      var held := R.ClaimId(client, c.jail, c.banId);
      if held in rows {
        var k := S.Key(held.jail, rows[held].ip);
        assert k in view && view[k] == c.banId;
        assert !SL.HeldByOther(view, S.Key(c.jail, c.ip), c.banId);
      }
    }
  }

  // ---------------------------------------------------------------- what a delivery answers

  lemma LoggedIdsIdentify(n: SR.Node, p: Payload, q: Payload)
    requires SL.LogOk(n.log) && IsLogged(n, p) && IsLogged(n, q) && p.Id() == q.Id()
    ensures p == q
  {
  }

  lemma LoggedIsConsistent(t: R.Tables, client: Client, n: SR.Node, payload: Payload, limit: int)
    requires SL.LogOk(n.log) && Remembers(t, client, n.log) && IsLogged(n, payload)
    ensures H.Consistent(t, RequestOf(Message(client, payload), limit))
  {
    hide SL.LogOk;
    match payload
    case EventPayload(e) =>
      if R.Known(t, client, e) {
        LoggedIdsIdentify(n, EventPayload(t.events[R.EntryId(client, e.id)].event), payload);
      }
    case SnapshotPayload(id, number, claims) =>
      var key := R.EntryId(client, id);
      if key in t.snapshots {
        LoggedIdsIdentify(n, SnapshotPayload(id, t.snapshots[key].number, t.snapshots[key].claims), payload);
      }
  }

  lemma OldRequestAnswers(t: R.Tables, client: Client, payload: Payload, limit: int, now: real)
    requires payload.Number() <= R.LastSeq(t, client)
    requires H.Consistent(t, RequestOf(Message(client, payload), limit))
    ensures var r := R.Apply(t, RequestOf(Message(client, payload), limit), R.SOURCE_CAPS, now).1;
            r == R.Duplicate(R.LastSeq(t, client)) || r == R.Stale(R.LastSeq(t, client))
              || (payload.SnapshotPayload? && |payload.claims| > limit && r == R.Refused(R.ClientLimit))
  {
    if payload.EventPayload? {
      assert forall d | d in [payload.event] :: d == payload.event;
    }
  }

  lemma NewEventAnswers(t: R.Tables, client: Client, view: map<S.Key, Uuid>, e: Event, limit: int, now: real)
    requires SI.StoreOk(t, R.SOURCE_CAPS) && Mirror(client, R.ClientRows(t.claims, client), view)
    requires SL.Honest(view, EventPayload(e)) && R.ValidEvents([e], 1) && e.number > R.LastSeq(t, client)
    requires H.Consistent(t, R.Events(client, [e], limit))
    ensures var r := R.ApplyEvents(t, client, [e], limit, R.SOURCE_CAPS, now).1;
            r == R.Applied(e.number) || r == R.Refused(R.ClientLimit) || r == R.Refused(R.GlobalLimit)
  {
    hide SI.StoreOk;
    hide Mirror;
    hide SL.Honest;
    hide R.ValidEvents;
    hide R.EventKeyTaken;
    hide R.Effect;
    hide R.TrimEvents;
    SI.ValidatedEventsKeepStoreOk(t, client, [e], limit, R.SOURCE_CAPS, now, 1);
    SI.StoreOkHasHistoryOk(t, R.SOURCE_CAPS);
    EventOnMirror(client, R.ClientRows(t.claims, client), view, e);
    B.OneStep(R.Registered(t, client), client, e, now);
    assert e in [e];
    H.NewBatchIsUnknown(t, client, [e]);
  }

  lemma NewSnapshotAnswers(
    t: R.Tables, client: Client, view: map<S.Key, Uuid>, id: Uuid, number: nat, claims: seq<Claim>, limit: int, now: real)
    requires SI.StoreOk(t, R.SOURCE_CAPS) && Mirror(client, R.ClientRows(t.claims, client), view)
    requires SL.Honest(view, SnapshotPayload(id, number, claims)) && R.ValidSnapshot(number, claims, |claims|)
    requires number > R.LastSeq(t, client) && H.Consistent(t, R.Replace(client, id, number, claims, limit))
    ensures var r := R.ApplySnapshot(t, client, id, number, claims, limit, R.SOURCE_CAPS, now).1;
            r == R.Applied(number) || r == R.Refused(R.ClientLimit) || r == R.Refused(R.GlobalLimit)
  {
    hide SI.StoreOk;
    hide Mirror;
    hide SL.Honest;
    hide R.ValidSnapshot;
    hide R.SnapshotKeyTaken;
    hide R.Replaced;
    hide R.OtherRows;
    hide R.RowsOfClaims;
    hide R.DistinctIdentities;
    SI.ValidatedSnapshotKeepsStoreOk(t, client, id, number, claims, limit, R.SOURCE_CAPS, now, |claims|);
    SnapshotOnMirror(client, R.ClientRows(t.claims, client), view, id, number, claims);
    assert !R.Rebinds(t, client, claims);
  }

  ghost predicate LimitRefusal(r: R.Outcome) {
    r == R.Refused(R.ClientLimit) || r == R.Refused(R.GlobalLimit)
  }

  lemma NewRequestAnswers(t: R.Tables, client: Client, n: SR.Node, payload: Payload, limit: nat, now: real)
    requires SI.StoreOk(t, R.SOURCE_CAPS) && SR.NodeInv(n) && Agrees(t, client, n)
    requires IsLogged(n, payload) && payload.Number() == R.LastSeq(t, client) + 1
    requires R.Valid(RequestOf(Message(client, payload), limit), limit)
    ensures var r := R.Apply(t, RequestOf(Message(client, payload), limit), R.SOURCE_CAPS, now).1;
            r == R.Applied(payload.Number()) || LimitRefusal(r)
  {
    hide SI.StoreOk;
    hide Mirror;
    hide SL.Honest;
    hide R.ApplyEvents;
    hide R.ApplySnapshot;
    hide Remembers;
    hide ReceiverJail;
    hide Admissible;
    hide H.Consistent;
    LogIsHonest(n, payload);
    LoggedIsConsistent(t, client, n, payload, limit);
    var view := ViewAt(n, R.LastSeq(t, client));
    match payload
    case EventPayload(e) => NewEventAnswers(t, client, view, e, limit, now);
    case SnapshotPayload(id, number, claims) => NewSnapshotAnswers(t, client, view, id, number, claims, limit, now);
  }

  lemma LogIsHonest(n: SR.Node, payload: Payload)
    requires SR.NodeInv(n) && IsLogged(n, payload)
    ensures SL.LogOk(n.log) && SL.Honest(ViewAt(n, payload.Number() - 1), payload)
    ensures ViewAt(n, payload.Number()) == SL.StepView(ViewAt(n, payload.Number() - 1), payload)
  {
    hide SL.Honest;
    hide SL.StepView;
    hide SL.OutboxOk;
    var i := payload.Number() - 1;
    assert SL.Honest(SL.View(n.log[..i]), n.log[i]);
    assert n.log[..i + 1][..i] == n.log[..i];
  }

  /** In every reachable state, a request of an honest sender that passes validation is applied,
      recognised as old, or refused by a limit: it never conflicts, never crosses the stored number,
      never reuses an identifier and never violates a constraint. It is newly applied only as the
      direct successor of the stored number. */
  lemma HonestRequestNeverConflicts(s: System, m: Message, limit: nat, now: real)
    requires SystemInv(s) && m in s.inflight && R.Valid(RequestOf(m, limit), limit)
    ensures var r, last := Received(s, m, limit, now).1, R.LastSeq(s.tables, m.client);
            && (r.Refused? ==> LimitRefusal(r))
            && (r.Applied? ==> m.payload.Number() == last + 1)
            && (m.payload.Number() <= last && !r.Refused? ==> r == R.Duplicate(last) || r == R.Stale(last))
  {
    hide SI.StoreOk;
    hide Mirror;
    hide Remembers;
    hide R.Apply;
    hide R.Valid;
    hide H.Consistent;
    assert MessageOk(s, m) && HostOk(s.tables, m.client, s.hosts[m.client]);
    var n := s.hosts[m.client].node;
    if m.payload.Number() <= R.LastSeq(s.tables, m.client) {
      LogIsHonest(n, m.payload);
      LoggedIsConsistent(s.tables, m.client, n, m.payload, limit);
      OldRequestAnswers(s.tables, m.client, m.payload, limit, now);
    } else {
      NewRequestAnswers(s.tables, m.client, n, m.payload, limit, now);
    }
  }

  // ---------------------------------------------------------------- deliveries keep the invariant

  lemma AppliedRequestKeepsMirror(t: R.Tables, client: Client, n: SR.Node, payload: Payload, limit: nat, now: real)
    requires SR.NodeInv(n) && Agrees(t, client, n)
    requires IsLogged(n, payload) && payload.Number() == R.LastSeq(t, client) + 1
    requires R.Apply(t, RequestOf(Message(client, payload), limit), R.SOURCE_CAPS, now).1.Applied?
    ensures var after := R.Apply(t, RequestOf(Message(client, payload), limit), R.SOURCE_CAPS, now).0;
            R.LastSeq(after, client) == payload.Number()
            && Mirror(client, R.ClientRows(after.claims, client), ViewAt(n, payload.Number()))
  {
    hide R.Apply;
    hide Mirror;
    hide Remembers;
    hide SL.Honest;
    hide R.Effect;
    hide R.ClientRows;
    hide R.RowsOfClaims;
    RL.ApplyIsExact(t, RequestOf(Message(client, payload), limit), R.SOURCE_CAPS, now, client);
    LogIsHonest(n, payload);
    var rows, view := R.ClientRows(t.claims, client), ViewAt(n, R.LastSeq(t, client));
    match payload
    case EventPayload(e) =>
      EventOnMirror(client, rows, view, e);
      assert [e][1..] == [];
      assert RL.EffectAll(rows, client, [e]) == R.Effect(rows, client, e);
    case SnapshotPayload(id, number, claims) =>
      SnapshotOnMirror(client, rows, view, id, number, claims);
  }

  lemma RequestKeepsRemembers(t: R.Tables, request: R.Request, now: real, maximum: nat, client: Client, log: seq<Payload>)
    requires SI.StoreOk(t, R.SOURCE_CAPS) && R.Valid(request, maximum) && Remembers(t, client, log)
    requires request.client == client && request.Events? ==>
      forall e | e in request.events :: 1 <= e.number <= |log| && log[e.number - 1] == EventPayload(e)
    requires request.client == client && request.Replace? ==>
      1 <= request.number <= |log| && log[request.number - 1] == SnapshotPayload(request.id, request.number, request.claims)
    ensures Remembers(R.Apply(t, request, R.SOURCE_CAPS, now).0, client, log)
  {
    hide R.Apply;
    hide R.Valid;
    hide SI.StoreOk;
    H.HistoryOnlyAdds(t, request, R.SOURCE_CAPS, now, maximum);
  }

  /** Whatever happens to a request of one client, the receiver still agrees with that client. */
  lemma OwnDeliveryKeepsAgreement(t: R.Tables, client: Client, n: SR.Node, payload: Payload, limit: nat, now: real)
    requires SI.StoreOk(t, R.SOURCE_CAPS) && SR.NodeInv(n) && Agrees(t, client, n) && IsLogged(n, payload)
    requires payload.Number() <= R.LastSeq(t, client) + 1
    requires R.Valid(RequestOf(Message(client, payload), limit), limit)
    ensures var (after, r) := R.Apply(t, RequestOf(Message(client, payload), limit), R.SOURCE_CAPS, now);
            && Agrees(after, client, n) && R.LastSeq(after, client) >= R.LastSeq(t, client)
            && (!r.Refused? ==> payload.Number() <= R.LastSeq(after, client))
  {
    hide R.Apply;
    hide R.Valid;
    hide SI.StoreOk;
    hide Mirror;
    hide Remembers;
    hide R.ClientRows;
    var request := RequestOf(Message(client, payload), limit);
    RL.NotAppliedChangesNothing(t, request, R.SOURCE_CAPS, now);
    RL.ApplyIsExact(t, request, R.SOURCE_CAPS, now, client);
    OwnRemembered(t, client, n, payload, limit, now);
    if R.Apply(t, request, R.SOURCE_CAPS, now).1.Applied? {
      AppliedRequestKeepsMirror(t, client, n, payload, limit, now);
    }
  }

  lemma OwnRemembered(t: R.Tables, client: Client, n: SR.Node, payload: Payload, limit: nat, now: real)
    requires SI.StoreOk(t, R.SOURCE_CAPS) && Remembers(t, client, n.log) && IsLogged(n, payload)
    requires R.Valid(RequestOf(Message(client, payload), limit), limit)
    ensures Remembers(R.Apply(t, RequestOf(Message(client, payload), limit), R.SOURCE_CAPS, now).0, client, n.log)
  {
    hide R.Apply;
    hide R.Valid;
    hide SI.StoreOk;
    hide Remembers;
    RequestKeepsRemembers(t, RequestOf(Message(client, payload), limit), now, limit, client, n.log);
  }

  /** A request of another client, honest or not, leaves the agreement alone. */
  lemma OtherRequestKeepsAgreement(t: R.Tables, request: R.Request, now: real, maximum: nat, client: Client, n: SR.Node)
    requires SI.StoreOk(t, R.SOURCE_CAPS) && R.Valid(request, maximum) && request.client != client
    requires Agrees(t, client, n)
    ensures var after := R.Apply(t, request, R.SOURCE_CAPS, now).0;
            Agrees(after, client, n) && R.LastSeq(after, client) == R.LastSeq(t, client)
  {
    hide R.Apply;
    hide R.Valid;
    hide SI.StoreOk;
    hide Mirror;
    hide R.ClientRows;
    hide Remembers;
    RL.ApplyIsExact(t, request, R.SOURCE_CAPS, now, client);
    RequestKeepsRemembers(t, request, now, maximum, client, n.log);
  }

  /** A validated request keeps the invariant if, for each honest client, the receiver still agrees and
      has not gone back. */
  lemma NewTablesKeepInv(s: System, tables: R.Tables)
    requires SystemInv(s) && SI.StoreOk(tables, R.SOURCE_CAPS)
    requires forall c | c in s.hosts ::
      Agrees(tables, c, s.hosts[c].node) && R.LastSeq(tables, c) >= R.LastSeq(s.tables, c)
    ensures SystemInv(s.(tables := tables))
  {
    hide SI.StoreOk;
    hide Agrees;
    hide IsLogged;
    hide SR.NodeInv;
    hide SR.IsHead;
    var after := s.(tables := tables);
    forall c | c in after.hosts
      ensures HostOk(after.tables, c, after.hosts[c])
    {
      assert HostOk(s.tables, c, s.hosts[c]);
    }
    forall m | m in after.inflight
      ensures MessageOk(after, m)
    {
      assert MessageOk(s, m);
    }
    forall a | a in after.acks
      ensures AckOk(after, a)
    {
      assert AckOk(s, a);
    }
  }

  lemma DeliverKeepsInv(s: System, m: Message, limit: nat, now: real, answered: bool)
    requires SystemInv(s)
    ensures SystemInv(Perform(s, Deliver(m, limit, now, answered)))
  {
    hide SI.StoreOk;
    hide Agrees;
    hide IsLogged;
    hide R.Valid;
    hide R.Apply;
    hide SR.NodeInv;
    hide SR.IsHead;
    if m in s.inflight && R.Valid(RequestOf(m, limit), limit) {
      var (tables, r) := Received(s, m, limit, now);
      assert MessageOk(s, m);
      forall c | c in s.hosts
        ensures Agrees(tables, c, s.hosts[c].node) && R.LastSeq(tables, c) >= R.LastSeq(s.tables, c)
        ensures c == m.client && !r.Refused? ==> m.payload.Number() <= R.LastSeq(tables, c)
      {
        assert HostOk(s.tables, c, s.hosts[c]);
        if c == m.client {
          OwnDeliveryKeepsAgreement(s.tables, c, s.hosts[c].node, m.payload, limit, now);
        } else {
          OtherRequestKeepsAgreement(s.tables, RequestOf(m, limit), now, limit, c, s.hosts[c].node);
        }
      }
      SI.ValidRequestsKeepStoreOk(s.tables, RequestOf(m, limit), R.SOURCE_CAPS, now, limit);
      NewTablesKeepInv(s, tables);
    }
  }

  lemma ForeignKeepsInv(s: System, request: R.Request, maximum: nat, now: real)
    requires SystemInv(s)
    ensures SystemInv(Perform(s, Foreign(request, maximum, now)))
  {
    hide SI.StoreOk;
    hide Agrees;
    hide R.Valid;
    hide R.Apply;
    hide SR.NodeInv;
    hide SR.IsHead;
    if request.client !in s.hosts && R.Valid(request, maximum) {
      var tables := R.Apply(s.tables, request, R.SOURCE_CAPS, now).0;
      forall c | c in s.hosts
        ensures Agrees(tables, c, s.hosts[c].node) && R.LastSeq(tables, c) >= R.LastSeq(s.tables, c)
      {
        assert HostOk(s.tables, c, s.hosts[c]);
        OtherRequestKeepsAgreement(s.tables, request, now, maximum, c, s.hosts[c].node);
      }
      SI.ValidRequestsKeepStoreOk(s.tables, request, R.SOURCE_CAPS, now, maximum);
      NewTablesKeepInv(s, tables);
    }
  }

  lemma ForgetKeepsInv(s: System, events: set<R.EntryId>, snapshots: set<R.EntryId>)
    requires SystemInv(s)
    ensures SystemInv(Perform(s, Forget(events, snapshots)))
  {
    hide SI.StoreOk;
    hide Agrees;
    hide SR.NodeInv;
    hide SR.IsHead;
    hide R.Prune;
    var tables := R.Prune(s.tables, events, snapshots);
    SI.PruneKeepsStoreOk(s.tables, events, snapshots, R.SOURCE_CAPS);
    forall c | c in s.hosts
      ensures Agrees(tables, c, s.hosts[c].node) && R.LastSeq(tables, c) >= R.LastSeq(s.tables, c)
    {
      assert HostOk(s.tables, c, s.hosts[c]);
      PruneKeepsAgreement(s.tables, events, snapshots, c, s.hosts[c].node);
    }
    NewTablesKeepInv(s, tables);
  }

  lemma PruneKeepsAgreement(
    t: R.Tables, events: set<R.EntryId>, snapshots: set<R.EntryId>, client: Client, n: SR.Node)
    requires Agrees(t, client, n)
    ensures Agrees(R.Prune(t, events, snapshots), client, n)
    ensures R.LastSeq(R.Prune(t, events, snapshots), client) == R.LastSeq(t, client)
  {
    hide Mirror;
  }

  // ---------------------------------------------------------------- moves of a host

  /** A host whose log only grows keeps every message and every agreement valid. */
  lemma NewHostKeepsInv(s: System, client: Client, host: Host)
    requires SystemInv(s) && client in s.hosts && HostOk(s.tables, client, host)
    requires s.hosts[client].node.log <= host.node.log
    ensures SystemInv(WithHost(s, client, host))
  {
    hide SI.StoreOk;
    hide HostOk;
    var after := WithHost(s, client, host);
    forall m | m in after.inflight
      ensures MessageOk(after, m)
    {
      assert MessageOk(s, m);
    }
    forall a | a in after.acks
      ensures AckOk(after, a)
    {
      assert AckOk(s, a);
    }
  }

  lemma GrownLogKeepsAgreement(t: R.Tables, client: Client, n: SR.Node, next: SR.Node)
    requires Agrees(t, client, n) && n.log <= next.log
    requires SL.Base(next.sender) <= R.LastSeq(t, client)
    ensures Agrees(t, client, next)
  {
    hide Mirror;
    assert next.log[..R.LastSeq(t, client)] == n.log[..R.LastSeq(t, client)];
  }

  /** Emitting a row neither moves the start of the window nor changes which row is its head. */
  lemma EmitKeepsHead(n: SR.Node, m: SR.Move)
    requires SR.NodeInv(n) && (m.Hook? || m.Reconcile?)
    ensures SL.Base(SR.Next(n, m).sender) == SL.Base(n.sender)
    ensures forall id | SR.IsHead(n.sender, id) :: SR.IsHead(SR.Next(n, m).sender, id)
  {
    hide SL.ClaimsOk;
    hide SR.Possible;
    hide S.Enqueue;
    hide S.Snapshot;
    SR.NextKeepsInv(n, m);
    var next := SR.Next(n, m);
    if SR.Possible(n, m) {
      AnswerInserts(n.sender, m);
      HeadSurvivesInsert(n, next);
    }
  }

  lemma PruningKeepsHead(n: SR.Node)
    requires SR.NodeInv(n)
    ensures SL.Base(SR.Next(n, SR.Reopened).sender) == SL.Base(n.sender)
    ensures forall id | SR.IsHead(n.sender, id) :: SR.IsHead(SR.Next(n, SR.Reopened).sender, id)
  {
    QuietKeepsPending(n, SR.Reopened);
  }

  ghost predicate InsertsRow(s: S.Sender, after: S.Sender) {
    && after.outbox.Keys == s.outbox.Keys + {s.lastId + 1} && after.number == s.number + 1
    && after.outbox[s.lastId + 1].deliveredAt.None? && after.outbox[s.lastId + 1].number == s.number + 1
    && forall id | id in s.outbox && id != s.lastId + 1 :: after.outbox[id] == s.outbox[id]
  }

  /** A hook or a snapshot leaves the outbox alone or adds one undelivered row to it. */
  lemma AnswerInserts(s: S.Sender, m: SR.Move)
    requires m.Hook? || m.Reconcile?
    ensures var (after, r) := SR.Answer(s, m);
            (after.outbox == s.outbox && after.number == s.number) || InsertsRow(s, after)
  {
    hide S.UpsertAll;
    hide S.Upsert;
    hide S.Release;
    hide S.Active;
  }

  lemma HeadSurvivesInsert(n: SR.Node, next: SR.Node)
    requires SR.NodeInv(n) && SR.NodeInv(next)
    requires var s, after := n.sender, next.sender;
             (after.outbox == s.outbox && after.number == s.number) || InsertsRow(s, after)
    ensures SL.Base(next.sender) == SL.Base(n.sender)
    ensures forall id | SR.IsHead(n.sender, id) :: SR.IsHead(next.sender, id)
  {
    hide SL.ClaimsOk;
    hide SL.OutboxOk;
    var s, after := n.sender, next.sender;
    if InsertsRow(s, after) {
      InsertAddsPending(n, after);
    } else {
      assert S.Pending(after) == S.Pending(s);
    }
  }

  lemma RowNumbers(n: SR.Node)
    requires SR.NodeInv(n)
    ensures n.sender.lastId == n.sender.number
    ensures forall id | id in n.sender.outbox :: n.sender.outbox[id].number == id <= n.sender.number
  {
    hide SL.ClaimsOk;
  }

  lemma InsertAddsPending(n: SR.Node, after: S.Sender)
    requires SR.NodeInv(n) && InsertsRow(n.sender, after)
    ensures SL.Base(after) == SL.Base(n.sender)
    ensures forall id | SR.IsHead(n.sender, id) :: SR.IsHead(after, id)
  {
    hide SR.NodeInv;
    RowNumbers(n);
    var s, added := n.sender, n.sender.lastId + 1;
    assert added !in s.outbox;
    assert S.Pending(after) == S.Pending(s) + {added};
    forall id | SR.IsHead(s, id)
      ensures SR.IsHead(after, id)
    {
      assert after.outbox[id] == s.outbox[id];
    }
  }

  lemma LocalKeepsInv(s: System, client: Client, move: SR.Move)
    requires SystemInv(s)
    ensures SystemInv(Perform(s, Local(client, move)))
  {
    hide SI.StoreOk;
    hide Agrees;
    hide SR.NodeInv;
    hide SR.IsHead;
    hide SR.Next;
    if client in s.hosts && IsLocal(move) {
      var n := s.hosts[client].node;
      assert HostOk(s.tables, client, s.hosts[client]);
      AgreesBounds(s.tables, client, n);
      SR.NextKeepsInv(n, move);
      if move.Reopened? {
        PruningKeepsHead(n);
      } else {
        EmitKeepsHead(n, move);
      }
      GrownLogKeepsAgreement(s.tables, client, n, SR.Next(n, move));
      NewHostKeepsInv(s, client, s.hosts[client].(node := SR.Next(n, move)));
    }
  }

  lemma AgreesBounds(t: R.Tables, client: Client, n: SR.Node)
    requires Agrees(t, client, n)
    ensures SL.Base(n.sender) <= R.LastSeq(t, client) <= |n.log|
  {
  }

  /** Sending the head row puts a request on its way that is at most one ahead of the receiver. */
  lemma SendKeepsInv(s: System, client: Client, id: nat, when: real)
    requires SystemInv(s)
    ensures SystemInv(Perform(s, Send(client, id, when)))
  {
    hide SI.StoreOk;
    hide Agrees;
    hide SL.ClaimsOk;
    if client in s.hosts && s.hosts[client].working.None? && S.IsDue(s.hosts[client].node.sender, id, when) {
      var n := s.hosts[client].node;
      assert HostOk(s.tables, client, s.hosts[client]);
      AgreesBounds(s.tables, client, n);
      SR.HeadIsFirst(n, id);
      var payload := n.sender.outbox[id].payload;
      assert IsLogged(n, payload) && payload.Number() == id by {
        EmittedNumber(n, id);
      }
      NewHostKeepsInv(s, client, s.hosts[client].(working := Some(id)));
      NewMessageKeepsInv(WithHost(s, client, s.hosts[client].(working := Some(id))), Message(client, payload));
    }
  }

  lemma EmittedNumber(n: SR.Node, id: nat)
    requires SR.NodeInv(n) && id in n.sender.outbox
    ensures IsLogged(n, n.sender.outbox[id].payload) && n.sender.outbox[id].payload.Number() == id
  {
    hide SL.Honest;
  }

  lemma NewMessageKeepsInv(s: System, m: Message)
    requires SystemInv(s) && MessageOk(s, m)
    ensures SystemInv(s.(inflight := s.inflight + {m}))
  {
    hide SI.StoreOk;
    hide HostOk;
    hide IsLogged;
    var after := s.(inflight := s.inflight + {m});
    forall o | o in after.inflight
      ensures MessageOk(after, o)
    {
      assert MessageOk(s, o);
    }
    forall a | a in after.acks
      ensures AckOk(after, a)
    {
      assert AckOk(s, a);
    }
  }

  lemma LosingKeepsInv(s: System, inflight: set<Message>, acks: set<Ack>)
    requires SystemInv(s) && inflight <= s.inflight && acks <= s.acks
    ensures SystemInv(s.(inflight := inflight, acks := acks))
  {
    hide SI.StoreOk;
    hide HostOk;
    hide IsLogged;
    var after := s.(inflight := inflight, acks := acks);
    forall m | m in after.inflight
      ensures MessageOk(after, m)
    {
      assert MessageOk(s, m);
    }
    forall a | a in after.acks
      ensures AckOk(after, a)
    {
      assert AckOk(s, a);
    }
  }

  /** An answer means that the receiver has passed that number, so the row may leave the window. */
  lemma AckedKeepsInv(s: System, client: Client, when: real)
    requires SystemInv(s)
    ensures SystemInv(Perform(s, Acked(client, when)))
  {
    hide SI.StoreOk;
    hide Agrees;
    hide SL.ClaimsOk;
    hide SL.OutboxOk;
    hide SR.IsHead;
    if client in s.hosts && s.hosts[client].working.Some? && Ack(client, s.hosts[client].working.value) in s.acks {
      var n, id := s.hosts[client].node, s.hosts[client].working.value;
      assert HostOk(s.tables, client, s.hosts[client]) && AckOk(s, Ack(client, id));
      AgreesBounds(s.tables, client, n);
      DeliveredMovesBase(n, id, when);
      SR.NextKeepsInv(n, SR.Delivered(id, when));
      var next := SR.Next(n, SR.Delivered(id, when));
      GrownLogKeepsAgreement(s.tables, client, n, next);
      NewHostKeepsInv(s, client, Host(next, None));
    }
  }

  lemma DeliveredMovesBase(n: SR.Node, id: nat, when: real)
    requires SR.NodeInv(n) && SR.IsHead(n.sender, id)
    ensures SL.Base(SR.Next(n, SR.Delivered(id, when)).sender) == id
    ensures SR.Next(n, SR.Delivered(id, when)).log == n.log
  {
    hide SL.ClaimsOk;
    SR.HeadIsFirst(n, id);
    SL.DeliveredKeepsInv(n.sender, n.log, id, when);
  }

  lemma QuietKeepsInv(s: System, client: Client, m: SR.Move)
    requires SystemInv(s) && client in s.hosts && (m.Retried? || m.Reopened?)
    ensures SystemInv(WithHost(s, client, Host(SR.Next(s.hosts[client].node, m), None)))
  {
    hide SI.StoreOk;
    hide Agrees;
    hide SL.ClaimsOk;
    hide SL.OutboxOk;
    var n := s.hosts[client].node;
    assert HostOk(s.tables, client, s.hosts[client]);
    AgreesBounds(s.tables, client, n);
    SR.NextKeepsInv(n, m);
    QuietKeepsPending(n, m);
    GrownLogKeepsAgreement(s.tables, client, n, SR.Next(n, m));
    NewHostKeepsInv(s, client, Host(SR.Next(n, m), None));
  }

  lemma QuietKeepsPending(n: SR.Node, m: SR.Move)
    requires SR.NodeInv(n) && (m.Retried? || m.Reopened?)
    ensures S.Pending(SR.Next(n, m).sender) == S.Pending(n.sender)
    ensures SL.Base(SR.Next(n, m).sender) == SL.Base(n.sender)
  {
    hide SL.ClaimsOk;
    match m
    case Retried(id, attempts, until) => SL.RetryKeepsInv(n.sender, n.log, id, attempts, until);
    case Reopened => SL.PruneKeepsInv(n.sender, n.log);
  }

  // ---------------------------------------------------------------- every run

  lemma PerformKeepsInv(s: System, m: Move)
    requires SystemInv(s)
    ensures SystemInv(Perform(s, m))
  {
    hide SystemInv;
    match m
    case Local(c, move) => LocalKeepsInv(s, c, move);
    case Send(c, id, when) => SendKeepsInv(s, c, id, when);
    case Deliver(message, limit, now, answered) => DeliverKeepsInv(s, message, limit, now, answered);
    case Foreign(request, maximum, now) => ForeignKeepsInv(s, request, maximum, now);
    case Drop(message) => LosingKeepsInv(s, s.inflight - {message}, s.acks);
    case LoseAck(ack) => LosingKeepsInv(s, s.inflight, s.acks - {ack});
    case Acked(c, when) => AckedKeepsInv(s, c, when);
    case GiveUp(c, until) => GiveUpKeepsInv(s, c, until);
    case Restart(c) =>
      if c in s.hosts {
        QuietKeepsInv(s, c, SR.Reopened);
      }
    case Forget(events, snapshots) => ForgetKeepsInv(s, events, snapshots);
  }

  lemma GiveUpKeepsInv(s: System, client: Client, until: real)
    requires SystemInv(s)
    ensures SystemInv(Perform(s, GiveUp(client, until)))
  {
    hide SystemInv;
    if client in s.hosts && s.hosts[client].working.Some?
       && s.hosts[client].working.value in s.hosts[client].node.sender.outbox
    {
      var id := s.hosts[client].working.value;
      QuietKeepsInv(s, client, SR.Retried(id, s.hosts[client].node.sender.outbox[id].attempts + 1, until));
    }
  }

  lemma InitialInv(clients: set<Client>, maxPending: nat)
    ensures SystemInv(Initial(clients, maxPending))
  {
    hide SI.StoreOk;
    hide HostOk;
    var s := Initial(clients, maxPending);
    SI.EmptyIsOk(R.SOURCE_CAPS);
    forall c | c in s.hosts
      ensures HostOk(s.tables, c, s.hosts[c])
    {
      InitialHostOk(c, maxPending);
    }
  }

  lemma InitialHostOk(client: Client, maxPending: nat)
    ensures HostOk(R.EMPTY, client, Host(SR.Node(S.Opened(maxPending), []), None))
  {
    hide SL.Inv;
    var n := SR.Node(S.Opened(maxPending), []);
    SL.OpenedInv(maxPending);
    assert S.Pending(n.sender) == {};
    assert R.ClientRows(R.EMPTY.claims, client) == map[];
    assert n.log[..0] == [];
  }

  lemma {:induction false} RunKeepsInv(s: System, moves: seq<Move>)
    requires SystemInv(s)
    ensures SystemInv(Run(s, moves))
  {
    hide SystemInv;
    hide Perform;
    if moves != [] {
      RunKeepsInv(s, moves[..|moves| - 1]);
      PerformKeepsInv(Run(s, moves[..|moves| - 1]), moves[|moves| - 1]);
    }
  }

  lemma {:induction false} HostsAreFixed(s: System, moves: seq<Move>)
    ensures Run(s, moves).hosts.Keys == s.hosts.Keys
  {
    hide SR.Next;
    hide R.Apply;
    hide R.Valid;
    hide R.Prune;
    if moves != [] {
      HostsAreFixed(s, moves[..|moves| - 1]);
    }
  }

  // ---------------------------------------------------------------- back to the moment of the commit

  lemma LogGrowsByOne(s: System, m: Move, client: Client)
    requires client in s.hosts
    ensures var after := Perform(s, m);
            && client in after.hosts
            && s.hosts[client].node.log <= after.hosts[client].node.log
            && |after.hosts[client].node.log| <= |s.hosts[client].node.log| + 1
  {
    hide R.Apply;
    hide R.Valid;
    hide R.Prune;
    hide S.IsDue;
    hide SR.Answer;
    hide SR.Possible;
  }

  /** The first point of a run at which the client's log has the given length; what the log then holds
      stays its beginning. */
  lemma {:induction false} FirstWithLength(s: System, moves: seq<Move>, client: Client, length: nat) returns (i: nat)
    requires client in s.hosts && s.hosts[client].node.log == []
    requires client in Run(s, moves).hosts && length <= |Run(s, moves).hosts[client].node.log|
    ensures i <= |moves| && client in Run(s, moves[..i]).hosts
    ensures var log := Run(s, moves[..i]).hosts[client].node.log;
            |log| == length && log <= Run(s, moves).hosts[client].node.log
    ensures i > 0 ==> client in Run(s, moves[..i - 1]).hosts && |Run(s, moves[..i - 1]).hosts[client].node.log| == length - 1
  {
    hide Perform;
    assert moves[..|moves|] == moves;
    if moves == [] {
      i := 0;
    } else {
      var n := |moves| - 1;
      HostsAreFixed(s, moves[..n]);
      LogGrowsByOne(Run(s, moves[..n]), moves[n], client);
      if length <= |Run(s, moves[..n]).hosts[client].node.log| {
        i := FirstWithLength(s, moves[..n], client, length);
        assert moves[..n][..i] == moves[..i];
        assert i > 0 ==> moves[..n][..i - 1] == moves[..i - 1];
      } else {
        i := |moves|;
      }
    }
  }

  /** End-to-end agreement: after any run, whatever was lost, repeated, delayed, refused, forgotten or
      interrupted, the receiver's claims for a sender are exactly the inverse of the open rows in the
      sender's claims table at an earlier point of the run: the one right after the move with which the
      sender committed the receiver's sequence number for it, or the start if that number is zero. */
  lemma EndToEndAgreement(clients: set<Client>, maxPending: nat, moves: seq<Move>, client: Client) returns (i: nat)
    requires client in clients
    ensures i <= |moves|
    ensures var s := Run(Initial(clients, maxPending), moves);
            var committed := Run(Initial(clients, maxPending), moves[..i]);
            && client in committed.hosts
            && committed.hosts[client].node.sender.number == R.LastSeq(s.tables, client)
            && Mirror(client, R.ClientRows(s.tables.claims, client),
                      S.Active(committed.hosts[client].node.sender.claims))
    ensures i > 0 ==>
      var before := Run(Initial(clients, maxPending), moves[..i - 1]);
      && client in before.hosts
      && before.hosts[client].node.sender.number + 1 == R.LastSeq(Run(Initial(clients, maxPending), moves).tables, client)
  {
    hide *;
    var start := Initial(clients, maxPending);
    InitialLogIsEmpty(clients, maxPending, client);
    HostAtEnd(clients, maxPending, moves, client);
    var s := Run(start, moves);
    i := FirstWithLength(start, moves, client, R.LastSeq(s.tables, client));
    HostAtEnd(clients, maxPending, moves[..i], client);
    MirrorOfPrefix(s, Run(start, moves[..i]), client);
    if i > 0 {
      HostAtEnd(clients, maxPending, moves[..i - 1], client);
    }
  }

  lemma InitialLogIsEmpty(clients: set<Client>, maxPending: nat, client: Client)
    requires client in clients
    ensures var s := Initial(clients, maxPending); client in s.hosts && s.hosts[client].node.log == []
  {
  }

  /** What every run leaves at one host. */
  lemma HostAtEnd(clients: set<Client>, maxPending: nat, moves: seq<Move>, client: Client)
    requires client in clients
    ensures var s := Run(Initial(clients, maxPending), moves);
            && client in s.hosts && SR.NodeInv(s.hosts[client].node)
            && s.hosts[client].node.sender.number == |s.hosts[client].node.log|
            && R.LastSeq(s.tables, client) <= |s.hosts[client].node.log|
            && Mirror(client, R.ClientRows(s.tables.claims, client),
                      ViewAt(s.hosts[client].node, R.LastSeq(s.tables, client)))
  {
    hide *;
    RunFromInitial(clients, maxPending, moves, client);
    var s := Run(Initial(clients, maxPending), moves);
    HostHasParts(s.tables, client, s.hosts[client]);
    LogIsTable(s.hosts[client].node);
  }

  lemma MirrorOfPrefix(s: System, committed: System, client: Client)
    requires client in s.hosts && client in committed.hosts && SR.NodeInv(committed.hosts[client].node)
    requires R.LastSeq(s.tables, client) <= |s.hosts[client].node.log|
    requires Mirror(client, R.ClientRows(s.tables.claims, client),
                    ViewAt(s.hosts[client].node, R.LastSeq(s.tables, client)))
    requires var log := committed.hosts[client].node.log;
             |log| == R.LastSeq(s.tables, client) && log <= s.hosts[client].node.log
    ensures Mirror(client, R.ClientRows(s.tables.claims, client),
                   S.Active(committed.hosts[client].node.sender.claims))
  {
    hide Mirror;
    hide SR.NodeInv;
    LogIsTable(committed.hosts[client].node);
    assert s.hosts[client].node.log[..R.LastSeq(s.tables, client)] == committed.hosts[client].node.log;
  }

  /** The replay of everything a sender emitted is its table of open claims. */
  lemma LogIsTable(n: SR.Node)
    requires SR.NodeInv(n)
    ensures SL.View(n.log) == S.Active(n.sender.claims) && n.sender.number == |n.log|
  {
    hide SL.LogOk;
    hide SL.OutboxOk;
  }

  lemma RunFromInitial(clients: set<Client>, maxPending: nat, moves: seq<Move>, client: Client)
    requires client in clients
    ensures var s := Run(Initial(clients, maxPending), moves);
            SystemInv(s) && client in s.hosts && HostOk(s.tables, client, s.hosts[client])
  {
    hide HostOk;
    hide SI.StoreOk;
    hide Run;
    InitialInv(clients, maxPending);
    RunKeepsInv(Initial(clients, maxPending), moves);
    HostsAreFixed(Initial(clients, maxPending), moves);
  }

  lemma HostHasParts(t: R.Tables, client: Client, h: Host)
    requires HostOk(t, client, h)
    ensures SR.NodeInv(h.node)
    ensures R.LastSeq(t, client) <= |h.node.log|
    ensures Mirror(client, R.ClientRows(t.claims, client), ViewAt(h.node, R.LastSeq(t, client)))
    ensures SL.Base(h.node.sender) <= R.LastSeq(t, client)
  {
  }

  /** After any run, every request on its way is at most one ahead of the receiver, and every number
      that the receiver has not passed is still undelivered in the sender's outbox. */
  lemma NothingRunsAhead(clients: set<Client>, maxPending: nat, moves: seq<Move>, client: Client)
    requires client in clients
    ensures var s := Run(Initial(clients, maxPending), moves);
            && (forall m | m in s.inflight && m.client == client ::
                  m.payload.Number() <= R.LastSeq(s.tables, client) + 1)
            && client in s.hosts
            && forall number | R.LastSeq(s.tables, client) < number <= s.hosts[client].node.sender.number ::
                 number in S.Pending(s.hosts[client].node.sender)
  {
    hide SI.StoreOk;
    hide Agrees;
    hide SL.ClaimsOk;
    hide Run;
    hide Initial;
    RunFromInitial(clients, maxPending, moves, client);
    var s := Run(Initial(clients, maxPending), moves);
    AgreesBounds(s.tables, client, s.hosts[client].node);
    forall m | m in s.inflight && m.client == client
      ensures m.payload.Number() <= R.LastSeq(s.tables, client) + 1
    {
      assert MessageOk(s, m);
    }
  }
}
