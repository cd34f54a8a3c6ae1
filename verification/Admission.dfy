/** When the receiver admits the next payload of an honest sender. */
module Admission {
  import B = BatchLaws
  import H = HistoryLaws
  import R = ReceiverModel
  import RL = ReceiverLaws
  import opened Replication
  import S = SenderModel
  import SI = StoreInvariant
  import SL = SenderLaws
  import SR = SenderRuns
  import opened Wire

  // ---------------------------------------------------------------- sizes

  /** A mirror has one row for each open claim. */
  lemma {:induction false} MirrorSize(client: Client, rows: map<R.ClaimId, R.ClaimRow>, view: map<S.Key, Uuid>)
    requires Mirror(client, rows, view)
    ensures |rows| == |view|
    decreases |view|
  {
    if view.Keys == {} {
      assert rows.Keys == {};
      assert |view.Keys| == |view| && |rows.Keys| == |rows|;
    } else {
      var k :| k in view.Keys;
      var id := R.ClaimId(client, k.jail, view[k]);
      MirrorWithout(client, rows, view, k);
      MirrorSize(client, rows - {id}, view - {k});
      assert view.Keys == (view - {k}).Keys + {k};
      assert rows.Keys == (rows - {id}).Keys + {id};
      assert |view.Keys| == |view| && |rows.Keys| == |rows|;
      assert |(view - {k}).Keys| == |view - {k}| && |(rows - {id}).Keys| == |rows - {id}|;
    }
  }

  lemma MirrorWithout(client: Client, rows: map<R.ClaimId, R.ClaimRow>, view: map<S.Key, Uuid>, k: S.Key)
    requires Mirror(client, rows, view) && k in view
    ensures var id := R.ClaimId(client, k.jail, view[k]);
            id in rows && Mirror(client, rows - {id}, view - {k}) && |view - {k}| < |view|
  {
    assert view.Keys == (view - {k}).Keys + {k};
    assert |view.Keys| == |view| && |(view - {k}).Keys| == |view - {k}|;
  }

  lemma RowsSplit(claims: map<R.ClaimId, R.ClaimRow>, client: Client)
    ensures |claims| == |R.ClientRows(claims, client)| + |R.OtherRows(claims, client)|
  {
    var own, others := R.ClientRows(claims, client), R.OtherRows(claims, client);
    assert claims.Keys == own.Keys + others.Keys && own.Keys !! others.Keys;
    assert |claims.Keys| == |claims| && |own.Keys| == |own| && |others.Keys| == |others|;
  }

  // ---------------------------------------------------------------- the law

  /** The client's open claims after its payload k, and the rows of all others, fit the limits. */
  ghost predicate Fits(t: R.Tables, client: Client, n: SR.Node, k: nat, limit: nat)
    requires k <= |n.log|
  {
    && |ViewAt(n, k)| <= limit
    && |R.OtherRows(t.claims, client)| + |ViewAt(n, k)| <= R.SOURCE_CAPS.total
  }

  lemma EventFits(t: R.Tables, client: Client, n: SR.Node, e: Event, limit: nat, now: real)
    requires SI.StoreOk(t, R.SOURCE_CAPS) && SR.NodeInv(n) && Agrees(t, client, n)
    requires IsLogged(n, EventPayload(e)) && e.number == R.LastSeq(t, client) + 1
    requires R.ValidEvents([e], limit)
    ensures R.ApplyEvents(t, client, [e], limit, R.SOURCE_CAPS, now).1.Applied? <==> Fits(t, client, n, e.number, limit)
  {
    hide SI.StoreOk;
    hide Mirror;
    hide SL.Honest;
    hide Remembers;
    hide R.Effect;
    hide R.ClientRows;
    hide R.OtherRows;
    hide R.ApplyEvents;
    hide SL.LogOk;
    hide H.Consistent;
    LogIsHonest(n, EventPayload(e));
    LoggedIsConsistent(t, client, n, EventPayload(e), limit);
    EventMeetsNoConflict(t, client, n, e, limit);
    B.NewBatchAcceptedIff(t, client, [e], limit, R.SOURCE_CAPS, now);
    EventLeaves(t.claims, client, ViewAt(n, e.number - 1), e);
    assert [e][1..] == [];
    assert RL.EffectAll(t.claims, client, [e]) == R.Effect(t.claims, client, e);
    assert B.IdentitiesHold(R.Effect(t.claims, client, e), client, []);
  }

  lemma EventMeetsNoConflict(t: R.Tables, client: Client, n: SR.Node, e: Event, limit: int)
    requires SI.StoreOk(t, R.SOURCE_CAPS) && e.number > R.LastSeq(t, client)
    requires H.Consistent(t, R.Events(client, [e], limit))
    ensures forall o | o in [e] :: !R.Known(t, client, o)
  {
    hide SI.StoreOk;
    assert e in [e];
    SI.StoreOkHasHistoryOk(t, R.SOURCE_CAPS);
    H.NewBatchIsUnknown(t, client, [e]);
  }

  lemma EventLeaves(claims: map<R.ClaimId, R.ClaimRow>, client: Client, view: map<S.Key, Uuid>, e: Event)
    requires Mirror(client, R.ClientRows(claims, client), view) && SL.Honest(view, EventPayload(e))
    ensures R.SameIpIfHeld(claims, R.ClaimId(client, e.jail, e.banId), e.ip)
    ensures var left := R.Effect(claims, client, e);
            && |R.ClientRows(left, client)| == |SL.StepView(view, EventPayload(e))|
            && |left| == |R.OtherRows(claims, client)| + |SL.StepView(view, EventPayload(e))|
  {
    hide Mirror;
    hide SL.Honest;
    hide SL.StepView;
    EventOnMirror(client, R.ClientRows(claims, client), view, e);
    RL.EffectOnShares(claims, client, e, client);
    var left := R.Effect(claims, client, e);
    MirrorSize(client, R.ClientRows(left, client), SL.StepView(view, EventPayload(e)));
    RowsSplit(left, client);
    assert R.OtherRows(left, client) == R.OtherRows(claims, client);
  }

  lemma SnapshotFits(
    t: R.Tables, client: Client, n: SR.Node, id: Uuid, number: nat, claims: seq<Claim>, limit: nat, now: real)
    requires SI.StoreOk(t, R.SOURCE_CAPS) && SR.NodeInv(n) && Agrees(t, client, n)
    requires IsLogged(n, SnapshotPayload(id, number, claims)) && number == R.LastSeq(t, client) + 1
    requires R.ValidSnapshot(number, claims, limit)
    ensures R.ApplySnapshot(t, client, id, number, claims, limit, R.SOURCE_CAPS, now).1.Applied?
      <==> Fits(t, client, n, number, limit)
  {
    hide SI.StoreOk;
    hide Mirror;
    hide SL.Honest;
    hide Remembers;
    hide R.ClientRows;
    hide R.OtherRows;
    hide R.RowsOfClaims;
    hide R.ApplySnapshot;
    hide SL.LogOk;
    hide H.Consistent;
    hide ReceiverJail;
    hide Admissible;
    var payload := SnapshotPayload(id, number, claims);
    LogIsHonest(n, payload);
    LoggedIsConsistent(t, client, n, payload, limit);
    NewSnapshotAnswers(t, client, ViewAt(n, number - 1), id, number, claims, limit, now);
    SnapshotLeaves(t, client, ViewAt(n, number - 1), id, number, claims);
    SnapshotRefusals(t, client, id, number, claims, limit, now);
  }

  lemma SnapshotRefusals(t: R.Tables, client: Client, id: Uuid, number: nat, claims: seq<Claim>, limit: int, now: real)
    ensures var r := R.ApplySnapshot(t, client, id, number, claims, limit, R.SOURCE_CAPS, now).1;
            var rows := R.OtherRows(t.claims, client) + R.RowsOfClaims(client, claims);
            && (r == R.Refused(R.ClientLimit) ==> |claims| > limit)
            && (r == R.Refused(R.GlobalLimit) ==> |rows| > R.SOURCE_CAPS.total)
            && (r.Applied? ==> |claims| <= limit && |rows| <= R.SOURCE_CAPS.total)
  {
    hide R.OtherRows;
    hide R.RowsOfClaims;
    hide R.Replaced;
    hide R.SnapshotKeyTaken;
    hide R.Rebinds;
    hide R.DistinctIdentities;
  }

  lemma SnapshotLeaves(
    t: R.Tables, client: Client, view: map<S.Key, Uuid>, id: Uuid, number: nat, claims: seq<Claim>)
    requires Mirror(client, R.ClientRows(t.claims, client), view)
    requires SL.Honest(view, SnapshotPayload(id, number, claims)) && R.DistinctIdentities(claims)
    ensures var rows := R.OtherRows(t.claims, client) + R.RowsOfClaims(client, claims);
            var next := SL.StepView(view, SnapshotPayload(id, number, claims));
            |next| == |claims| && |rows| == |R.OtherRows(t.claims, client)| + |next|
  {
    hide Mirror;
    hide SL.Honest;
    hide R.DistinctIdentities;
    var next := SL.StepView(view, SnapshotPayload(id, number, claims));
    SnapshotOnMirror(client, R.ClientRows(t.claims, client), view, id, number, claims);
    MirrorSize(client, R.RowsOfClaims(client, claims), next);
    RL.RowsOfDistinctClaims(client, claims);
    RL.RowsOfClaimsAreTheClients(client, claims);
    hide R.OtherRows;
    hide R.RowsOfClaims;
    OthersAreApart(t.claims, client);
    DisjointSize(R.OtherRows(t.claims, client), R.RowsOfClaims(client, claims));
  }

  lemma OthersAreApart(claims: map<R.ClaimId, R.ClaimRow>, client: Client)
    ensures forall id | id in R.OtherRows(claims, client) :: id.client != client
  {
  }

  lemma DisjointSize(a: map<R.ClaimId, R.ClaimRow>, b: map<R.ClaimId, R.ClaimRow>)
    requires a.Keys !! b.Keys
    ensures |a + b| == |a| + |b|
  {
    assert (a + b).Keys == a.Keys + b.Keys;
    assert |(a + b).Keys| == |a + b| && |a.Keys| == |a| && |b.Keys| == |b|;
  }

  /** The admission law: the payload that comes next for the receiver, once it passes validation, is applied
      if and only if the sender's open claims right after that payload are within the client's limit and,
      together with the rows of all other clients, within the total. */
  lemma NextIsAppliedIff(s: System, client: Client, k: nat, limit: nat, now: real)
    requires SystemInv(s) && client in s.hosts && k == R.LastSeq(s.tables, client) + 1 <= |s.hosts[client].node.log|
    requires var m := Message(client, s.hosts[client].node.log[k - 1]); R.Valid(RequestOf(m, limit), limit)
    ensures var n := s.hosts[client].node;
            Received(s, Message(client, n.log[k - 1]), limit, now).1.Applied? <==> Fits(s.tables, client, n, k, limit)
  {
    hide SI.StoreOk;
    hide Agrees;
    hide SR.NodeInv;
    hide R.ApplyEvents;
    hide R.ApplySnapshot;
    hide R.ValidEvents;
    hide R.ValidSnapshot;
    hide Fits;
    var n := s.hosts[client].node;
    assert HostOk(s.tables, client, s.hosts[client]);
    NumbersAreIndices(n, k);
    match n.log[k - 1]
    case EventPayload(e) => EventFits(s.tables, client, n, e, limit, now);
    case SnapshotPayload(id, number, claims) => SnapshotFits(s.tables, client, n, id, number, claims, limit, now);
  }

  lemma NumbersAreIndices(n: SR.Node, k: nat)
    requires SR.NodeInv(n) && 1 <= k <= |n.log|
    ensures n.log[k - 1].Number() == k && IsLogged(n, n.log[k - 1])
  {
    hide SL.OutboxOk;
    hide SL.Honest;
  }
}
