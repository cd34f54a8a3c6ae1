/** What a hook and a snapshot answer and record, case by case, in terms of the tables alone. */
module SenderOutcomes {
  import opened SenderLaws
  import opened SenderModel
  import opened Wire

  // ---------------------------------------------------------------- conditions on the tables

  predicate IsOpen(s: Sender, key: Key) {
    key in s.claims && s.claims[key].active
  }

  predicate HasRoom(s: Sender) {
    |set id | id in s.outbox && s.outbox[id].deliveredAt.None?| < s.maxPending
  }

  /** Some row, delivered or not, has the next number or the drawn identifier. */
  predicate IsUsed(s: Sender, id: Uuid) {
    exists row | row in s.outbox :: s.outbox[row].number == s.number + 1 || s.outbox[row].payload.Id() == id
  }

  /** Another address of the jail has the identity, in an open row or a closed one. */
  predicate BanIdTaken(s: Sender, key: Key, banId: Uuid) {
    exists k | k in s.claims :: k.jail == key.jail && k.ip != key.ip && s.claims[k].banId == banId
  }

  /** The payload was given the next number and a row of its own, which nothing delays. */
  predicate Recorded(before: Sender, after: Sender, payload: Payload, when: real) {
    && payload.Number() == before.number + 1 == after.number
    && after.lastId == before.lastId + 1
    && after.outbox == before.outbox[after.lastId := OutRow(after.number, payload, 0, when, None)]
    && after.maxPending == before.maxPending && after.lastError == before.lastError
  }

  // ---------------------------------------------------------------- hooks

  /** The five answers of a hook, each in exactly its case, and what an accepted hook records. */
  predicate HookAnswered(
    before: Sender, after: Sender, r: Result,
    op: Op, jail: Jail, ip: Ip, banId: Uuid, eventId: Uuid, when: real)
  {
    var key := Key(jail, ip);
    var changes := SenderJail(jail) && Admissible(ip) && (op == Ban <==> !IsOpen(before, key));
    var taken := op == Ban && BanIdTaken(before, key, banId);
    && (r == Invalid <==> !SenderJail(jail) || !Admissible(ip))
    && (r == Unchanged <==> SenderJail(jail) && Admissible(ip) && (op == Ban <==> IsOpen(before, key)))
    && (r == Full <==> changes && !taken && !HasRoom(before))
    && (r == Collision <==> changes && (taken || (HasRoom(before) && IsUsed(before, eventId))))
    && (r.Enqueued? <==> changes && !taken && HasRoom(before) && !IsUsed(before, eventId))
    && (!r.Enqueued? ==> after == before)
    && (r.Enqueued? ==>
         var identity := if op == Ban then banId else before.claims[key].banId;
         && r.payload == EventPayload(Event(eventId, before.number + 1, op, jail, identity, ip, Some(true), None))
         && Recorded(before, after, r.payload, when)
         && after.claims == before.claims[key := Row(identity, op == Ban)])
  }

  lemma HookIsAnswered(s: Sender, op: Op, jail: Jail, ip: Ip, banId: Uuid, eventId: Uuid, when: real)
    ensures var (after, r) := Enqueue(s, op, jail, ip, banId, eventId, when);
            HookAnswered(s, after, r, op, jail, ip, banId, eventId, when)
  {
    hide SenderJail;
    hide Admissible;
    hide HasRoom;
    hide Pending;
    hide IsUsed;
    hide BanIdTaken;
    hide OutboxClash;
    hide TakenByOther;
    RoomMeans(s);
    TakenMeans(s, Key(jail, ip), banId);
    UsedMeans(s, EventFor(s, op, jail, ip, banId, eventId));
    if IsOpen(s, Key(jail, ip)) {
      UsedMeans(s, EventFor(s, op, jail, ip, s.claims[Key(jail, ip)].banId, eventId));
    }
  }

  lemma RoomMeans(s: Sender)
    ensures HasRoom(s) <==> |Pending(s)| < s.maxPending
  {
    assert Pending(s) == set id | id in s.outbox && s.outbox[id].deliveredAt.None?;
  }

  lemma TakenMeans(s: Sender, key: Key, banId: Uuid)
    ensures TakenByOther(s.claims, key, banId) == BanIdTaken(s, key, banId)
  {
    if k :| k in s.claims && k.jail == key.jail && k.ip != key.ip && s.claims[k].banId == banId {
      assert k != key;
    }
  }

  lemma UsedMeans(s: Sender, payload: Payload)
    requires payload.Number() == s.number + 1
    ensures OutboxClash(s, payload) == IsUsed(s, payload.Id())
  {
  }

  /** With the invariant and a fresh event identifier nothing else can go wrong: a hook is accepted exactly
      if its input is valid, it changes the claim, there is room, and a ban's drawn identity is in no other
      row of the jail; every other answer has its exact case too. */
  lemma HookIsAcceptedIff(
    s: Sender, log: seq<Payload>, op: Op, jail: Jail, ip: Ip, banId: Uuid, eventId: Uuid, when: real)
    requires Inv(s, log) && FreshId(log, eventId)
    ensures var (after, r) := Enqueue(s, op, jail, ip, banId, eventId, when);
            var valid := SenderJail(jail) && Admissible(ip);
            var changes := op == Ban <==> !IsOpen(s, Key(jail, ip));
            var taken := op == Ban && BanIdTaken(s, Key(jail, ip), banId);
            && (r == Invalid <==> !valid)
            && (r == Unchanged <==> valid && !changes)
            && (r == Collision <==> valid && changes && taken)
            && (r == Full <==> valid && changes && !taken && |Pending(s)| >= s.maxPending)
            && (r.Enqueued? <==> valid && changes && !taken && |Pending(s)| < s.maxPending)
  {
    hide SenderJail;
    hide Admissible;
    hide Enqueue;
    hide ClaimsOk;
    hide BanIdTaken;
    hide IsOpen;
    HookIsAnswered(s, op, jail, ip, banId, eventId, when);
    NothingUsed(s, log, eventId);
    RoomMeans(s);
  }

  lemma NothingUsed(s: Sender, log: seq<Payload>, id: Uuid)
    requires Inv(s, log) && FreshId(log, id)
    ensures !IsUsed(s, id)
  {
    hide ClaimsOk;
    forall row | row in s.outbox
      ensures s.outbox[row].number != s.number + 1 && s.outbox[row].payload.Id() != id
    {
      assert log[row - 1] in log;
    }
  }

  /** The first row of an empty outbox may be sent at the very time it was recorded. */
  lemma FirstRowIsDueAtOnce(
    s: Sender, log: seq<Payload>, op: Op, jail: Jail, ip: Ip, banId: Uuid, eventId: Uuid, when: real)
    requires Inv(s, log) && FreshId(log, eventId) && Pending(s) == {}
    requires Enqueue(s, op, jail, ip, banId, eventId, when).1.Enqueued?
    ensures var after := Enqueue(s, op, jail, ip, banId, eventId, when).0;
            IsDue(after, after.lastId, when) && after.outbox[after.lastId].attempts == 0
  {
    hide SenderJail;
    hide Admissible;
    hide Enqueue;
    hide ClaimsOk;
    HookIsAnswered(s, op, jail, ip, banId, eventId, when);
    var after := Enqueue(s, op, jail, ip, banId, eventId, when).0;
    forall id | id in Pending(after)
      ensures id == after.lastId
    {
      assert id in s.outbox ==> id !in Pending(s);
    }
  }

  // ---------------------------------------------------------------- snapshots

  /** An open claim keeps its identity; any other key takes the proposed one. */
  function IdentityFor(s: Sender, w: Wanted): Uuid {
    if IsOpen(s, w.key) then s.claims[w.key].banId else w.banId
  }

  /** When entry i is written, another address of its jail has its identity: an earlier entry, or a row that
      no earlier entry has overwritten. */
  predicate ClashAt(s: Sender, wanted: seq<Wanted>, i: int)
    requires 0 <= i < |wanted|
  {
    var key, identity := wanted[i].key, IdentityFor(s, wanted[i]);
    || (exists j | 0 <= j < i :: wanted[j].key.jail == key.jail && IdentityFor(s, wanted[j]) == identity)
    || (exists k | k in s.claims ::
          && k.jail == key.jail && k.ip != key.ip && s.claims[k].banId == identity
          && forall j | 0 <= j < i :: wanted[j].key != k)
  }

  predicate SomeClash(s: Sender, wanted: seq<Wanted>) {
    exists i | 0 <= i < |wanted| :: ClashAt(s, wanted, i)
  }

  /** The payload lists exactly the wanted keys, and exactly they are open afterwards; no row is lost and no
      other row changes its identity. */
  predicate Reconciled(before: Sender, after: Sender, wanted: seq<Wanted>, payload: Payload) {
    && payload.SnapshotPayload? && |payload.claims| == |wanted|
    && (forall i | 0 <= i < |wanted| ::
          payload.claims[i] ==
            Claim(wanted[i].key.jail, IdentityFor(before, wanted[i]), wanted[i].key.ip, true, None))
    && (forall w | w in wanted :: w.key in after.claims && after.claims[w.key] == Row(IdentityFor(before, w), true))
    && (forall k | k in before.claims && k !in Keys(wanted) ::
          k in after.claims && after.claims[k] == Row(before.claims[k].banId, false))
    && (forall k | k in after.claims :: k in before.claims || k in Keys(wanted))
  }

  /** The four answers of a snapshot, each in exactly its case, and what a committed one records. */
  predicate SnapshotAnswered(
    before: Sender, after: Sender, r: Result, wanted: seq<Wanted>, expected: Option<nat>, id: Uuid, when: real)
  {
    var fenced := expected.None? || expected.value == before.number;
    && (r == Race <==> !fenced)
    && (r == Full <==> fenced && !HasRoom(before))
    && (r == Collision <==> fenced && HasRoom(before) && (SomeClash(before, wanted) || IsUsed(before, id)))
    && (r.Enqueued? <==> fenced && HasRoom(before) && !SomeClash(before, wanted) && !IsUsed(before, id))
    && (!r.Enqueued? ==> after == before)
    && (r.Enqueued? ==>
         && Recorded(before, after, r.payload, when) && r.payload.Id() == id
         && Reconciled(before, after, wanted, r.payload))
  }

  lemma IdentityIsKept(s: Sender, w: Wanted)
    ensures KeptBan(Active(s.claims), w) == IdentityFor(s, w)
  {
  }

  /** The upsert loop in terms of a fixed choice of identities. */
  predicate LoopClashAt(claims: map<Key, Row>, before: map<Key, Uuid>, wanted: seq<Wanted>, i: int)
    requires 0 <= i < |wanted|
  {
    var key, identity := wanted[i].key, KeptBan(before, wanted[i]);
    || (exists j | 0 <= j < i :: wanted[j].key.jail == key.jail && KeptBan(before, wanted[j]) == identity)
    || (exists k | k in claims ::
          && k.jail == key.jail && k.ip != key.ip && claims[k].banId == identity
          && forall j | 0 <= j < i :: wanted[j].key != k)
  }

  lemma FirstStep(claims: map<Key, Row>, before: map<Key, Uuid>, wanted: seq<Wanted>)
    requires wanted != []
    ensures LoopClashAt(claims, before, wanted, 0) <==>
      TakenByOther(claims, wanted[0].key, KeptBan(before, wanted[0]))
  {
    var key, identity := wanted[0].key, KeptBan(before, wanted[0]);
    if k :| k in claims && k.jail == key.jail && k.ip != key.ip && claims[k].banId == identity {
      assert k != key;
    }
  }

  lemma LaterStep(claims: map<Key, Row>, before: map<Key, Uuid>, wanted: seq<Wanted>, i: int)
    requires DistinctKeys(wanted) && 0 < i < |wanted|
    ensures var next := claims[wanted[0].key := Row(KeptBan(before, wanted[0]), true)];
            LoopClashAt(claims, before, wanted, i) <==> LoopClashAt(next, before, wanted[1..], i - 1)
  {
    hide KeptBan;
    var next, rest := claims[wanted[0].key := Row(KeptBan(before, wanted[0]), true)], wanted[1..];
    var key, identity := wanted[i].key, KeptBan(before, wanted[i]);
    assert rest[i - 1] == wanted[i];
    if LoopClashAt(claims, before, wanted, i) {
      if j :| 0 <= j < i && wanted[j].key.jail == key.jail && KeptBan(before, wanted[j]) == identity {
        if j == 0 {
          assert wanted[0].key in next && wanted[0].key != key;
          assert forall m | 0 <= m < i - 1 :: rest[m].key != wanted[0].key;
        } else {
          assert rest[j - 1] == wanted[j];
        }
      } else {
        var k :| k in claims && k.jail == key.jail && k.ip != key.ip && claims[k].banId == identity
                 && forall j | 0 <= j < i :: wanted[j].key != k;
        assert k in next && next[k] == claims[k];
        assert forall m | 0 <= m < i - 1 :: rest[m] == wanted[m + 1];
      }
    }
    if LoopClashAt(next, before, rest, i - 1) {
      if j :| 0 <= j < i - 1 && rest[j].key.jail == key.jail && KeptBan(before, rest[j]) == identity {
        assert wanted[j + 1] == rest[j];
      } else {
        var k :| k in next && k.jail == key.jail && k.ip != key.ip && next[k].banId == identity
                 && forall j | 0 <= j < i - 1 :: rest[j].key != k;
        if k != wanted[0].key {
          forall j | 0 <= j < i
            ensures wanted[j].key != k
          {
            assert j > 0 ==> rest[j - 1] == wanted[j];
          }
        }
      }
    }
  }

  /** The loop stops exactly if some entry clashes. */
  lemma {:induction false} LoopStopsIff(claims: map<Key, Row>, before: map<Key, Uuid>, wanted: seq<Wanted>)
    requires DistinctKeys(wanted)
    ensures UpsertAll(claims, before, wanted).None? <==>
      exists i | 0 <= i < |wanted| :: LoopClashAt(claims, before, wanted, i)
    decreases |wanted|
  {
    hide LoopClashAt;
    hide KeptBan;
    hide TakenByOther;
    if wanted != [] {
      FirstStep(claims, before, wanted);
      var next := claims[wanted[0].key := Row(KeptBan(before, wanted[0]), true)];
      LoopStopsIff(next, before, wanted[1..]);
      forall i | 0 < i < |wanted|
        ensures LoopClashAt(claims, before, wanted, i) <==> LoopClashAt(next, before, wanted[1..], i - 1)
      {
        LaterStep(claims, before, wanted, i);
      }
      if j :| 0 <= j < |wanted[1..]| && LoopClashAt(next, before, wanted[1..], j) {
        assert LoopClashAt(claims, before, wanted, j + 1);
      }
    }
  }

  /** What the loop leaves if it completes. */
  lemma {:induction false} LoopLeaves(claims: map<Key, Row>, before: map<Key, Uuid>, wanted: seq<Wanted>)
    requires DistinctKeys(wanted) && UpsertAll(claims, before, wanted).Some?
    ensures var after := UpsertAll(claims, before, wanted).value;
            && after.Keys == claims.Keys + Keys(wanted)
            && (forall w | w in wanted :: after[w.key] == Row(KeptBan(before, w), true))
            && (forall k | k in claims && k !in Keys(wanted) :: after[k] == claims[k])
    decreases |wanted|
  {
    hide KeptBan;
    hide TakenByOther;
    if wanted != [] {
      var w := wanted[0];
      var next := claims[w.key := Row(KeptBan(before, w), true)];
      assert forall v | v in wanted[1..] :: v.key != w.key;
      LoopLeaves(next, before, wanted[1..]);
      assert Keys(wanted) == Keys(wanted[1..]) + {w.key};
      assert forall v | v in wanted :: v == w || v in wanted[1..];
    }
  }

  lemma ClashMeans(s: Sender, wanted: seq<Wanted>)
    ensures SomeClash(s, wanted) <==> exists i | 0 <= i < |wanted| :: LoopClashAt(s.claims, Active(s.claims), wanted, i)
  {
    hide KeptBan;
    hide IdentityFor;
    hide Active;
    forall w
      ensures KeptBan(Active(s.claims), w) == IdentityFor(s, w)
    {
      IdentityIsKept(s, w);
    }
    assert forall i | 0 <= i < |wanted| :: ClashAt(s, wanted, i) <==> LoopClashAt(s.claims, Active(s.claims), wanted, i);
  }

  lemma LeavesReconciled(s: Sender, wanted: seq<Wanted>, claims: map<Key, Row>, after: Sender, payload: Payload)
    requires DistinctKeys(wanted) && UpsertAll(s.claims, Active(s.claims), wanted) == Some(claims)
    requires after.claims == Release(claims, Active(s.claims).Keys - Keys(wanted))
    requires payload.SnapshotPayload? && payload.claims == SnapshotClaims(Active(s.claims), wanted)
    ensures Reconciled(s, after, wanted, payload)
  {
    hide UpsertAll;
    LoopLeaves(s.claims, Active(s.claims), wanted);
    forall w
      ensures KeptBan(Active(s.claims), w) == IdentityFor(s, w)
    {
      IdentityIsKept(s, w);
    }
    hide KeptBan;
    hide IdentityFor;
    forall w | w in wanted
      ensures w.key in Keys(wanted)
    {
    }
  }

  lemma SnapshotIsAnswered(s: Sender, wanted: seq<Wanted>, expected: Option<nat>, id: Uuid, when: real)
    requires DistinctKeys(wanted)
    ensures var (after, r) := Snapshot(s, wanted, expected, id, when);
            SnapshotAnswered(s, after, r, wanted, expected, id, when)
  {
    hide UpsertAll;
    hide SomeClash;
    hide Reconciled;
    hide SnapshotClaims;
    hide Release;
    hide IsUsed;
    hide LoopClashAt;
    hide DistinctKeys;
    hide HasRoom;
    hide Pending;
    hide OutboxClash;
    RoomMeans(s);
    ClashMeans(s, wanted);
    LoopStopsIff(s.claims, Active(s.claims), wanted);
    var before := Active(s.claims);
    var payload := SnapshotPayload(id, s.number + 1, SnapshotClaims(before, wanted));
    UsedMeans(s, payload);
    var claims := UpsertAll(s.claims, before, wanted);
    if claims.Some? {
      var after := WithClaims(s, Release(claims.value, before.Keys - Keys(wanted)), payload, when);
      LeavesReconciled(s, wanted, claims.value, after, payload);
    }
  }

  /** The identities proposed for keys that are not open are in no row of another address of their jails and
      differ from each other. */
  predicate FreshProposals(s: Sender, wanted: seq<Wanted>) {
    && (forall w, k | w in wanted && !IsOpen(s, w.key) && k in s.claims && k != w.key && k.jail == w.key.jail ::
          s.claims[k].banId != w.banId)
    && (forall i, j | 0 <= i < j < |wanted| && !IsOpen(s, wanted[i].key) && !IsOpen(s, wanted[j].key)
                      && wanted[i].key.jail == wanted[j].key.jail :: wanted[i].banId != wanted[j].banId)
  }

  lemma FreshProposalsDoNotClash(s: Sender, wanted: seq<Wanted>)
    requires UniqueBans(s.claims) && DistinctKeys(wanted) && FreshProposals(s, wanted)
    ensures !SomeClash(s, wanted)
  {
    forall i | 0 <= i < |wanted|
      ensures !ClashAt(s, wanted, i)
    {
      var w := wanted[i];
      assert w in wanted;
      forall j | 0 <= j < i && wanted[j].key.jail == w.key.jail
        ensures IdentityFor(s, wanted[j]) != IdentityFor(s, w)
      {
        assert wanted[j] in wanted && wanted[j].key != w.key;
      }
    }
  }

  /** A snapshot whose fence holds is committed if there is room, its identifier is fresh and its proposals
      are; then it has the next number and lists exactly the wanted keys. It is answered with a full outbox
      exactly if the fence holds and there is no room. */
  lemma FreshSnapshotIsCommitted(
    s: Sender, log: seq<Payload>, wanted: seq<Wanted>, expected: Option<nat>, id: Uuid, when: real)
    requires Inv(s, log) && FreshId(log, id) && DistinctKeys(wanted)
    ensures var (after, r) := Snapshot(s, wanted, expected, id, when);
            var fenced := expected.None? || expected.value == s.number;
            && (r == Full <==> fenced && |Pending(s)| >= s.maxPending)
            && (r.Enqueued? <==> fenced && |Pending(s)| < s.maxPending && !SomeClash(s, wanted))
            && (fenced && |Pending(s)| < s.maxPending && FreshProposals(s, wanted) ==>
                 && r.Enqueued? && r.payload.Number() == s.number + 1 && r.payload.Id() == id
                 && Reconciled(s, after, wanted, r.payload))
  {
    hide Snapshot;
    hide SomeClash;
    hide Reconciled;
    hide FreshProposals;
    hide OutboxOk;
    SnapshotIsAnswered(s, wanted, expected, id, when);
    NothingUsed(s, log, id);
    RoomMeans(s);
    if FreshProposals(s, wanted) {
      FreshProposalsDoNotClash(s, wanted);
    }
  }
}
