/** What every run of hooks, snapshots and deliveries keeps true of the sender. */
module SenderLaws {
  import opened SenderModel
  import opened Wire

  // ---------------------------------------------------------------- the log of emitted payloads

  /** The claims a list of snapshot entries stands for. */
  function FromClaims(claims: seq<Claim>): map<Key, Uuid> {
    if claims == [] then map[]
    else
      var last := claims[|claims| - 1];
      FromClaims(claims[..|claims| - 1])[Key(last.jail, last.ip) := last.banId]
  }

  function StepView(view: map<Key, Uuid>, payload: Payload): map<Key, Uuid> {
    match payload
    case SnapshotPayload(_, _, claims) => FromClaims(claims)
    case EventPayload(e) =>
      if e.op.Ban? then view[Key(e.jail, e.ip) := e.banId] else view - {Key(e.jail, e.ip)}
  }

  /** The active claims after the payloads numbered 1 to |log|. */
  function View(log: seq<Payload>): map<Key, Uuid> {
    if log == [] then map[] else StepView(View(log[..|log| - 1]), log[|log| - 1])
  }

  predicate HeldByOther(view: map<Key, Uuid>, key: Key, banId: Uuid) {
    exists k | k in view :: k != key && k.jail == key.jail && view[k] == banId
  }

  predicate DistinctClaims(claims: seq<Claim>) {
    forall i, j | 0 <= i < j < |claims| ::
      claims[i].jail == claims[j].jail ==> claims[i].ip != claims[j].ip && claims[i].banId != claims[j].banId
  }

  predicate PermanentClaim(c: Claim) {
    c.permanent && c.expiresAt.None? && Admissible(c.ip) && SenderJail(c.jail)
  }

  /** The payload is right for the claims it was emitted on: a ban opens a claim that is not open,
      with an identity no open claim of the jail has; an unban names the identity that the open claim
      has; a snapshot never gives an open identity to another address. */
  predicate Honest(view: map<Key, Uuid>, payload: Payload) {
    match payload
    case SnapshotPayload(_, _, claims) =>
      && DistinctClaims(claims)
      && (forall c | c in claims :: PermanentClaim(c) && !HeldByOther(view, Key(c.jail, c.ip), c.banId))
      && (forall c | c in claims :: Key(c.jail, c.ip) in view ==> view[Key(c.jail, c.ip)] == c.banId)
    case EventPayload(e) =>
      var key := Key(e.jail, e.ip);
      && e.permanent == Some(true) && e.expiresAt.None? && Admissible(e.ip) && SenderJail(e.jail)
      && if e.op.Ban? then key !in view && !HeldByOther(view, key, e.banId)
         else key in view && view[key] == e.banId
  }

  ghost predicate LogOk(log: seq<Payload>) {
    && (forall i | 0 <= i < |log| :: log[i].Number() == i + 1)
    && (forall i | 0 <= i < |log| :: Honest(View(log[..i]), log[i]))
    && (forall i, j | 0 <= i < j < |log| :: log[i].Id() != log[j].Id())
  }

  lemma LogOkAppend(log: seq<Payload>, payload: Payload)
    requires LogOk(log) && payload.Number() == |log| + 1 && Honest(View(log), payload)
    requires forall p | p in log :: p.Id() != payload.Id()
    ensures LogOk(log + [payload]) && View(log + [payload]) == StepView(View(log), payload)
  {
    var longer := log + [payload];
    assert longer[..|log|] == log;
    forall i | 0 <= i < |longer|
      ensures Honest(View(longer[..i]), longer[i])
    {
      if i < |log| {
        assert longer[..i] == log[..i];
      }
    }
  }

  // ---------------------------------------------------------------- the invariant

  /** UNIQUE(jail, ban_id). */
  predicate UniqueBans(claims: map<Key, Row>) {
    forall k, l | k in claims && l in claims :: k.jail == l.jail && claims[k].banId == claims[l].banId ==> k == l
  }

  function Base(s: Sender): int {
    s.number - |Pending(s)|
  }

  /** The undelivered numbers are a contiguous interval that ends at the allocator value. */
  ghost predicate Window(s: Sender) {
    Contiguous(Pending(s), s.number)
  }

  ghost predicate Contiguous(pending: set<nat>, number: nat) {
    var base := number - |pending|;
    && base >= 0
    && (forall id | id in pending :: base < id <= number)
    && (forall id | base < id <= number :: id in pending)
  }

  ghost predicate RowsMatchLog(s: Sender, log: seq<Payload>) {
    forall id | id in s.outbox ::
      1 <= id <= |log| && s.outbox[id].number == id && s.outbox[id].payload == log[id - 1]
  }

  ghost predicate ValidRows(claims: map<Key, Row>) {
    forall k | k in claims :: Admissible(k.ip) && SenderJail(k.jail)
  }

  ghost predicate ClaimsOk(claims: map<Key, Row>, log: seq<Payload>) {
    UniqueBans(claims) && ValidRows(claims) && LogOk(log) && View(log) == Active(claims)
  }

  ghost predicate OutboxOk(s: Sender, log: seq<Payload>) {
    RowsMatchLog(s, log) && Window(s) && |Pending(s)| <= s.maxPending
  }

  ghost predicate Inv(s: Sender, log: seq<Payload>) {
    s.number == s.lastId == |log| && ClaimsOk(s.claims, log) && OutboxOk(s, log)
  }

  lemma OpenedInv(maxPending: nat)
    ensures Inv(Opened(maxPending), [])
  {
    assert Pending(Opened(maxPending)) == {};
  }

  /** The UUIDs drawn for event and snapshot identifiers are fresh. */
  ghost predicate FreshId(log: seq<Payload>, id: Uuid) {
    forall p | p in log :: p.Id() != id
  }

  function Logged(log: seq<Payload>, r: Result): seq<Payload> {
    if r.Enqueued? then log + [r.payload] else log
  }

  lemma EmitKeepsWindow(s: Sender, claims: map<Key, Row>, payload: Payload, when: real)
    requires Window(s) && s.number == s.lastId && s.number + 1 !in s.outbox
    ensures var after := WithClaims(s, claims, payload, when);
            Window(after) && |Pending(after)| == |Pending(s)| + 1
  {
    var after := WithClaims(s, claims, payload, when);
    assert Pending(after) == Pending(s) + {s.number + 1};
    assert s.number + 1 !in Pending(s);
    assert Base(after) == Base(s);
  }

  lemma EmitKeepsRows(s: Sender, log: seq<Payload>, claims: map<Key, Row>, payload: Payload, when: real)
    requires RowsMatchLog(s, log) && s.number == s.lastId == |log|
    ensures RowsMatchLog(WithClaims(s, claims, payload, when), log + [payload])
    ensures s.number + 1 !in s.outbox
  {
  }

  lemma FreshPayloadFits(s: Sender, log: seq<Payload>, payload: Payload)
    requires RowsMatchLog(s, log) && s.number == |log| && payload.Number() == s.number + 1
    requires FreshId(log, payload.Id())
    ensures !OutboxClash(s, payload)
  {
    forall id | id in s.outbox
      ensures s.outbox[id].number != payload.Number() && s.outbox[id].payload.Id() != payload.Id()
    {
      assert log[id - 1] in log;
    }
  }

  lemma RowInsertKeepsInv(s: Sender, log: seq<Payload>, claims: map<Key, Row>, payload: Payload, when: real)
    requires Inv(s, log) && |Pending(s)| < s.maxPending
    requires ClaimsOk(claims, log + [payload])
    ensures Inv(WithClaims(s, claims, payload, when), log + [payload])
  {
    EmitKeepsRows(s, log, claims, payload, when);
    EmitKeepsWindow(s, claims, payload, when);
  }

  /** Inserting the next row keeps the window and the bound. */
  lemma EmitKeepsInv(s: Sender, log: seq<Payload>, claims: map<Key, Row>, payload: Payload, when: real)
    requires Inv(s, log) && FreshId(log, payload.Id())
    requires UniqueBans(claims) && ValidRows(claims)
    requires payload.Number() == s.number + 1 && Honest(View(log), payload)
    requires StepView(View(log), payload) == Active(claims)
    ensures var (after, r) := Emit(s, claims, payload, when);
            && Inv(after, Logged(log, r))
            && (!r.Enqueued? ==> after == s)
            && (r.Full? <==> |Pending(s)| >= s.maxPending)
            && (r.Enqueued? <==> |Pending(s)| < s.maxPending)
            && (r.Enqueued? ==> r.payload == payload && after.claims == claims)
  {
    FreshPayloadFits(s, log, payload);
    if |Pending(s)| < s.maxPending {
      LogOkAppend(log, payload);
      RowInsertKeepsInv(s, log, claims, payload, when);
    }
  }

  // ---------------------------------------------------------------- hooks

  lemma BanPayloadIsHonest(s: Sender, log: seq<Payload>, jail: Jail, ip: Ip, banId: Uuid, eventId: Uuid)
    requires Inv(s, log) && SenderJail(jail) && Admissible(ip)
    requires !TakenByOther(s.claims, Key(jail, ip), banId) && Key(jail, ip) !in Active(s.claims)
    ensures var claims := s.claims[Key(jail, ip) := Row(banId, true)];
            var payload := EventFor(s, Ban, jail, ip, banId, eventId);
            UniqueBans(claims) && Honest(View(log), payload) && StepView(View(log), payload) == Active(claims)
  {
    var claims := s.claims[Key(jail, ip) := Row(banId, true)];
    assert Active(claims) == Active(s.claims)[Key(jail, ip) := banId];
    assert UniqueBans(claims);
    assert !HeldByOther(Active(s.claims), Key(jail, ip), banId);
  }

  lemma UnbanPayloadIsHonest(s: Sender, log: seq<Payload>, jail: Jail, ip: Ip, eventId: Uuid)
    requires Inv(s, log) && SenderJail(jail) && Admissible(ip)
    requires Key(jail, ip) in Active(s.claims)
    ensures var opening := s.claims[Key(jail, ip)].banId;
            var claims := s.claims[Key(jail, ip) := Row(opening, false)];
            var payload := EventFor(s, Unban, jail, ip, opening, eventId);
            UniqueBans(claims) && Honest(View(log), payload) && StepView(View(log), payload) == Active(claims)
  {
    var key := Key(jail, ip);
    var claims := s.claims[key := Row(s.claims[key].banId, false)];
    ClosingKeepsUnique(s.claims, key);
    var payload := EventFor(s, Unban, jail, ip, s.claims[key].banId, eventId);
    assert Active(s.claims)[key] == s.claims[key].banId;
    assert Honest(View(log), payload);
  }

  lemma ClosingKeepsUnique(claims: map<Key, Row>, key: Key)
    requires UniqueBans(claims) && key in claims
    ensures var closed := claims[key := Row(claims[key].banId, false)];
            UniqueBans(closed) && Active(closed) == Active(claims) - {key}
  {
    hide UniqueBans;
    var closed := claims[key := Row(claims[key].banId, false)];
    SameBansKeepUnique(claims, closed);
    assert Active(closed) == Active(claims) - {key};
  }

  lemma SameBansKeepUnique(a: map<Key, Row>, b: map<Key, Row>)
    requires UniqueBans(a) && b.Keys <= a.Keys && forall k | k in b :: b[k].banId == a[k].banId
    ensures UniqueBans(b)
  {
  }

  /** A hook keeps the invariant, and if it is refused it changes nothing. With drawn event
      identifiers fresh, it is refused only for bad input, a full outbox, or a drawn ban identity
      that some row of the jail, open or closed, already has. */
  lemma EnqueueKeepsInv(
    s: Sender, log: seq<Payload>, op: Op, jail: Jail, ip: Ip, banId: Uuid, eventId: Uuid, when: real)
    requires Inv(s, log) && FreshId(log, eventId)
    ensures var (after, r) := Enqueue(s, op, jail, ip, banId, eventId, when);
            && Inv(after, Logged(log, r))
            && (!r.Enqueued? ==> after == s)
            && (r.Enqueued? && op.Ban? ==> Active(after.claims) == Active(s.claims)[Key(jail, ip) := banId])
            && (r.Enqueued? && op.Unban? ==> Active(after.claims) == Active(s.claims) - {Key(jail, ip)})
            && (r.Unchanged? <==> SenderJail(jail) && Admissible(ip) && (op.Ban? <==> Key(jail, ip) in Active(s.claims)))
            && (r.Collision? ==> op.Ban? && TakenByOther(s.claims, Key(jail, ip), banId))
  {
    var key := Key(jail, ip);
    var active := key in s.claims && s.claims[key].active;
    if SenderJail(jail) && Admissible(ip) && active != op.Ban?
       && !(op.Ban? && TakenByOther(s.claims, key, banId))
    {
      var ban := if op.Ban? then banId else s.claims[key].banId;
      var payload := EventFor(s, op, jail, ip, ban, eventId);
      if op.Ban? {
        BanPayloadIsHonest(s, log, jail, ip, banId, eventId);
      } else {
        UnbanPayloadIsHonest(s, log, jail, ip, eventId);
      }
      EmitKeepsInv(s, log, s.claims[key := Row(ban, op.Ban?)], payload, when);
    }
  }

  // ---------------------------------------------------------------- snapshots

  ghost predicate DistinctKeys(wanted: seq<Wanted>) {
    forall i, j | 0 <= i < j < |wanted| :: wanted[i].key != wanted[j].key
  }

  ghost predicate ValidKeys(wanted: seq<Wanted>) {
    forall w | w in wanted :: Admissible(w.key.ip) && SenderJail(w.key.jail)
  }

  /** An entry that the normalisation cannot take: malformed, or a repetition. */
  ghost predicate BadEntry(found: seq<Found>, i: int)
    requires 0 <= i < |found|
  {
    || !SenderJail(found[i].jail) || !Admissible(found[i].ip)
    || exists j :: 0 <= j < i && found[j].jail == found[i].jail && found[j].ip == found[i].ip
  }

  lemma RepeatedKeyIsBad(found: seq<Found>, front: seq<Wanted>)
    requires found != [] && |front| == |found| - 1
    requires forall i | 0 <= i < |front| :: front[i].key == Key(found[i].jail, found[i].ip)
    ensures var last := found[|found| - 1];
            BadEntry(found, |found| - 1) <==>
              (!SenderJail(last.jail) || !Admissible(last.ip) || Key(last.jail, last.ip) in Keys(front))
  {
    var n := |found| - 1;
    var key := Key(found[n].jail, found[n].ip);
    if key in Keys(front) {
      var w :| w in front && w.key == key;
      var j :| 0 <= j < n && front[j] == w;
    }
    if j :| 0 <= j < n && found[j].jail == found[n].jail && found[j].ip == found[n].ip {
      assert front[j] in front;
    }
  }

  lemma {:induction false} NormalizeSucceeds(claims: map<Key, Row>, found: seq<Found>, drawn: seq<Uuid>)
    requires |found| == |drawn|
    ensures var r := Normalize(claims, found, drawn);
            && (r.Some? ==> |r.value| == |found|)
            && (r.Some? ==> forall i | 0 <= i < |found| :: r.value[i] == Propose(claims, found[i], drawn[i]))
            && (r.Some? <==> forall i | 0 <= i < |found| :: !BadEntry(found, i))
  {
    if found != [] {
      var n := |found| - 1;
      NormalizeSucceeds(claims, found[..n], drawn[..n]);
      assert forall i | 0 <= i < n :: BadEntry(found[..n], i) <==> BadEntry(found, i);
      var front := Normalize(claims, found[..n], drawn[..n]);
      if front.Some? {
        RepeatedKeyIsBad(found, front.value);
      }
    }
  }

  /** The normalisation keeps the order, keeps the identity of open claims, and fails exactly when an
      entry is malformed or repeats an earlier one. */
  lemma NormalizeIsExact(claims: map<Key, Row>, found: seq<Found>, drawn: seq<Uuid>)
    requires |found| == |drawn|
    ensures var r := Normalize(claims, found, drawn);
            && (r.Some? <==> forall i | 0 <= i < |found| :: !BadEntry(found, i))
            && (r.Some? ==> DistinctKeys(r.value) && ValidKeys(r.value) && |r.value| == |found|)
            && (r.Some? ==> forall i | 0 <= i < |found| ::
                  && r.value[i].key == Key(found[i].jail, found[i].ip)
                  && r.value[i].banId ==
                       if r.value[i].key in Active(claims) then Active(claims)[r.value[i].key]
                       else if found[i].banId.Some? then found[i].banId.value else drawn[i])
  {
    NormalizeSucceeds(claims, found, drawn);
    var r := Normalize(claims, found, drawn);
    if r.Some? {
      forall i, j | 0 <= i < j < |found|
        ensures r.value[i].key != r.value[j].key
      {
        assert !BadEntry(found, j);
      }
      forall i | 0 <= i < |found|
        ensures Admissible(found[i].ip) && SenderJail(found[i].jail)
      {
        assert !BadEntry(found, i);
      }
    }
  }

  /** What the upsert loop leaves: every wanted key open under its kept identity, all other rows
      untouched, uniqueness intact. */
  lemma {:induction false} UpsertAllIsExact(claims: map<Key, Row>, before: map<Key, Uuid>, wanted: seq<Wanted>)
    requires UniqueBans(claims) && DistinctKeys(wanted)
    requires UpsertAll(claims, before, wanted).Some?
    ensures var after := UpsertAll(claims, before, wanted).value;
            && UniqueBans(after)
            && after.Keys == claims.Keys + Keys(wanted)
            && (forall w | w in wanted :: after[w.key] == Row(KeptBan(before, w), true))
            && (forall k | k in claims && k !in Keys(wanted) :: after[k] == claims[k])
    decreases |wanted|
  {
    hide UniqueBans;
    hide TakenByOther;
    if wanted != [] {
      var w := wanted[0];
      var next := claims[w.key := Row(KeptBan(before, w), true)];
      UpsertKeepsUnique(claims, w.key, KeptBan(before, w));
      assert forall v | v in wanted[1..] :: v.key != w.key;
      UpsertAllIsExact(next, before, wanted[1..]);
      assert Keys(wanted) == Keys(wanted[1..]) + {w.key};
    }
  }

  lemma UpsertKeepsUnique(claims: map<Key, Row>, key: Key, banId: Uuid)
    requires UniqueBans(claims) && !TakenByOther(claims, key, banId)
    ensures UniqueBans(claims[key := Row(banId, true)])
  {
  }

  ghost function WantedView(before: map<Key, Uuid>, wanted: seq<Wanted>): map<Key, Uuid> {
    FromClaims(SnapshotClaims(before, wanted))
  }

  lemma WantedViewGrows(before: map<Key, Uuid>, wanted: seq<Wanted>)
    requires wanted != []
    ensures var n := |wanted| - 1;
            WantedView(before, wanted) == WantedView(before, wanted[..n])[wanted[n].key := KeptBan(before, wanted[n])]
  {
    var n := |wanted| - 1;
    assert SnapshotClaims(before, wanted)[..n] == SnapshotClaims(before, wanted[..n]);
  }

  lemma {:induction false} WantedViewIsExact(before: map<Key, Uuid>, wanted: seq<Wanted>)
    requires DistinctKeys(wanted)
    ensures WantedView(before, wanted).Keys == Keys(wanted)
    ensures forall w | w in wanted :: WantedView(before, wanted)[w.key] == KeptBan(before, w)
  {
    if wanted != [] {
      hide WantedView;
      hide KeptBan;
      var n := |wanted| - 1;
      WantedViewIsExact(before, wanted[..n]);
      WantedViewGrows(before, wanted);
      assert Keys(wanted) == Keys(wanted[..n]) + {wanted[n].key};
      forall w | w in wanted
        ensures WantedView(before, wanted)[w.key] == KeptBan(before, w)
      {
        var i :| 0 <= i <= n && wanted[i] == w;
        assert i < n ==> wanted[i] in wanted[..n] && wanted[i].key != wanted[n].key;
      }
    }
  }

  lemma ReleaseIsExact(claims: map<Key, Row>, wanted: seq<Wanted>, after: map<Key, Row>)
    requires UniqueBans(claims) && DistinctKeys(wanted)
    requires UpsertAll(claims, Active(claims), wanted) == Some(after)
    ensures var final := Release(after, Active(claims).Keys - Keys(wanted));
            UniqueBans(final) && final.Keys == claims.Keys + Keys(wanted) && Active(final).Keys == Keys(wanted)
  {
    hide UniqueBans;
    hide UpsertAll;
    UpsertAllIsExact(claims, Active(claims), wanted);
    var final := Release(after, Active(claims).Keys - Keys(wanted));
    SameBansKeepUnique(after, final);
    forall k | k in final
      ensures k in Keys(wanted) <==> final[k].active
    {
      if k in Keys(wanted) {
        var w :| w in wanted && w.key == k;
      }
    }
    assert Active(final).Keys == Keys(wanted);
  }

  lemma SnapshotView(claims: map<Key, Row>, wanted: seq<Wanted>, after: map<Key, Row>)
    requires UniqueBans(claims) && DistinctKeys(wanted)
    requires UpsertAll(claims, Active(claims), wanted) == Some(after)
    ensures var before := Active(claims);
            Active(Release(after, before.Keys - Keys(wanted))) == WantedView(before, wanted)
  {
    var before := Active(claims);
    var final := Release(after, before.Keys - Keys(wanted));
    UpsertAllIsExact(claims, before, wanted);
    ReleaseIsExact(claims, wanted, after);
    WantedViewIsExact(before, wanted);
    forall k | k in Keys(wanted)
      ensures Active(final)[k] == WantedView(before, wanted)[k]
    {
      var w :| w in wanted && w.key == k;
    }
  }

  lemma SnapshotTables(s: Sender, log: seq<Payload>, wanted: seq<Wanted>, claims: map<Key, Row>)
    requires Inv(s, log) && DistinctKeys(wanted) && ValidKeys(wanted)
    requires UpsertAll(s.claims, Active(s.claims), wanted) == Some(claims)
    ensures var before := Active(s.claims);
            var final := Release(claims, before.Keys - Keys(wanted));
            && UniqueBans(final) && ValidRows(final)
            && Active(final) == WantedView(before, wanted)
  {
    ReleaseIsExact(s.claims, wanted, claims);
    SnapshotView(s.claims, wanted, claims);
  }

  lemma SnapshotPayloadIsHonest(s: Sender, log: seq<Payload>, wanted: seq<Wanted>, claims: map<Key, Row>, id: Uuid)
    requires Inv(s, log) && DistinctKeys(wanted) && ValidKeys(wanted)
    requires UpsertAll(s.claims, Active(s.claims), wanted) == Some(claims)
    ensures Honest(View(log), SnapshotPayload(id, s.number + 1, SnapshotClaims(Active(s.claims), wanted)))
  {
    var before := Active(s.claims);
    var sent := SnapshotClaims(before, wanted);
    UpsertAllIsExact(s.claims, before, wanted);
    forall i | 0 <= i < |sent|
      ensures wanted[i].key in claims && claims[wanted[i].key] == Row(sent[i].banId, true)
      ensures PermanentClaim(sent[i]) && !HeldByOther(before, wanted[i].key, sent[i].banId)
    {
      assert wanted[i] in wanted;
      forall k | k in before && k != wanted[i].key && k.jail == wanted[i].key.jail
        ensures before[k] != sent[i].banId
      {
        KeptIdentity(s.claims, wanted, claims, k);
      }
    }
    forall i, j | 0 <= i < j < |sent| && sent[i].jail == sent[j].jail
      ensures sent[i].ip != sent[j].ip && sent[i].banId != sent[j].banId
    {
      assert wanted[i].key != wanted[j].key;
    }
  }

  /** A claim that is open before a snapshot still has its identity in the table afterwards, whether
      the snapshot keeps it or closes it. */
  lemma KeptIdentity(claims: map<Key, Row>, wanted: seq<Wanted>, after: map<Key, Row>, k: Key)
    requires UniqueBans(claims) && DistinctKeys(wanted) && k in Active(claims)
    requires UpsertAll(claims, Active(claims), wanted) == Some(after)
    ensures k in after && after[k].banId == claims[k].banId
  {
    UpsertAllIsExact(claims, Active(claims), wanted);
    if k in Keys(wanted) {
      var w :| w in wanted && w.key == k;
    }
  }

  /** A snapshot keeps the invariant whatever identities are proposed for it. If it commits, the open
      claims are exactly the wanted ones, claims that were open keep their identity, and the fence
      held; if it does not, nothing changes. */
  lemma SnapshotKeepsInv(
    s: Sender, log: seq<Payload>, wanted: seq<Wanted>, expected: Option<nat>, id: Uuid, when: real)
    requires Inv(s, log) && FreshId(log, id) && DistinctKeys(wanted) && ValidKeys(wanted)
    ensures var (after, r) := Snapshot(s, wanted, expected, id, when);
            var open := Active(s.claims);
            && Inv(after, Logged(log, r))
            && (!r.Enqueued? ==> after == s)
            && (r.Enqueued? ==> Active(after.claims).Keys == Keys(wanted))
            && (r.Enqueued? ==> forall k | k in open && k in Keys(wanted) :: Active(after.claims)[k] == open[k])
            && (r.Enqueued? && expected.Some? ==> s.number == expected.value)
            && (r.Race? <==> expected.Some? && s.number != expected.value)
            && !r.Invalid? && !r.Unchanged?
  {
    var before := Active(s.claims);
    if !(expected.Some? && s.number != expected.value) && |Pending(s)| < s.maxPending {
      match UpsertAll(s.claims, before, wanted)
      case None =>
      case Some(claims) =>
        var final := Release(claims, before.Keys - Keys(wanted));
        var payload := SnapshotPayload(id, s.number + 1, SnapshotClaims(before, wanted));
        SnapshotTables(s, log, wanted, claims);
        SnapshotPayloadIsHonest(s, log, wanted, claims, id);
        EmitKeepsInv(s, log, final, payload, when);
        WantedViewIsExact(before, wanted);
        forall k | k in before && k in Keys(wanted)
          ensures Active(final)[k] == before[k]
        {
          var w :| w in wanted && w.key == k;
        }
    }
  }

  // ---------------------------------------------------------------- delivery

  /** In the invariant the row the worker may send is the first one of the window, as soon as its own wait is
      over. */
  lemma DueIffWindowHead(s: Sender, log: seq<Payload>, id: nat, when: real)
    requires Inv(s, log)
    ensures IsDue(s, id, when) <==> id in s.outbox && id == Base(s) + 1 && s.outbox[id].availableAt <= when
  {
    hide ClaimsOk;
    if IsDue(s, id, when) {
      assert Base(s) + 1 in Pending(s);
    }
    if id in s.outbox && id == Base(s) + 1 {
      HeadIsUndelivered(s, log);
    }
  }

  lemma HeadIsUndelivered(s: Sender, log: seq<Payload>)
    requires Inv(s, log)
    ensures Base(s) + 1 in s.outbox ==> Base(s) + 1 in Pending(s)
  {
    assert Base(s) + 1 <= |log| ==> Base(s) + 1 in Pending(s);
  }

  lemma DueIsWindowHead(s: Sender, log: seq<Payload>, id: nat, when: real)
    requires Inv(s, log) && IsDue(s, id, when)
    ensures id == Base(s) + 1
  {
    DueIffWindowHead(s, log, id, when);
  }

  lemma DeliveredKeepsInv(s: Sender, log: seq<Payload>, id: nat, when: real)
    requires Inv(s, log) && id in Pending(s) && id == Base(s) + 1
    ensures Inv(MarkDelivered(s, id, when), log)
    ensures Pending(MarkDelivered(s, id, when)) == Pending(s) - {id}
    ensures |Pending(MarkDelivered(s, id, when))| == |Pending(s)| - 1
  {
    hide ClaimsOk;
    hide Window;
    hide RowsMatchLog;
    DeliveredKeepsWindow(s, id, when);
    DeliveredKeepsRows(s, log, id, when);
  }

  lemma DeliveredKeepsRows(s: Sender, log: seq<Payload>, id: nat, when: real)
    requires RowsMatchLog(s, log)
    ensures RowsMatchLog(MarkDelivered(s, id, when), log)
  {
  }

  lemma DeliveredKeepsWindow(s: Sender, id: nat, when: real)
    requires Window(s) && id in Pending(s) && id == Base(s) + 1
    ensures var after := MarkDelivered(s, id, when);
            Window(after) && Pending(after) == Pending(s) - {id} && |Pending(after)| == |Pending(s)| - 1
  {
    var after := MarkDelivered(s, id, when);
    assert Pending(after) == Pending(s) - {id};
    assert Base(after) == id;
  }

  lemma RetryKeepsInv(s: Sender, log: seq<Payload>, id: nat, attempts: nat, until: real)
    requires Inv(s, log)
    ensures Inv(MarkRetry(s, id, attempts, until), log)
    ensures Pending(MarkRetry(s, id, attempts, until)) == Pending(s)
  {
    RetryKeepsRows(s, log, id, attempts, until);
  }

  lemma RetryKeepsRows(s: Sender, log: seq<Payload>, id: nat, attempts: nat, until: real)
    requires RowsMatchLog(s, log)
    ensures RowsMatchLog(MarkRetry(s, id, attempts, until), log)
    ensures Pending(MarkRetry(s, id, attempts, until)) == Pending(s)
  {
    var after := MarkRetry(s, id, attempts, until);
    assert after.outbox.Keys == s.outbox.Keys;
    assert Pending(after) == Pending(s);
  }

  lemma PruneKeepsInv(s: Sender, log: seq<Payload>)
    requires Inv(s, log)
    ensures Inv(PruneDelivered(s), log)
    ensures PruneDelivered(s).outbox.Keys == Pending(s) == Pending(PruneDelivered(s))
    ensures forall id | id in Pending(s) :: PruneDelivered(s).outbox[id] == s.outbox[id]
  {
    assert Pending(PruneDelivered(s)) == Pending(s);
  }
}
