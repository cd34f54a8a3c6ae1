/** The sender's store as the object that hooks, snapshots and the worker share (client/sender.py). Each
    operation that is a transaction works on the fields one statement at a time and puts them back when a
    statement fails. */
module SenderStores {
  import L = SenderLaws
  import M = SenderModel
  import O = SenderOutcomes
  import opened SenderModel
  import opened Wire

  /** Normalising and committing, with nothing in between. */
  function SnapshotOf(
    s: Sender, found: seq<Found>, drawn: seq<Uuid>, expected: Option<nat>, id: Uuid, when: real): (Sender, Result)
    requires |found| == |drawn|
  {
    match Normalize(s.claims, found, drawn)
    case None => (s, Invalid)
    case Some(wanted) => M.Snapshot(s, wanted, expected, id, when)
  }

  class SenderStore {
    var claims: map<Key, Row>
    var number: nat
    var lastId: nat
    var outbox: map<nat, OutRow>
    var error: Option<string>
    const maxPending: int

    function State(): Sender
      reads this
    {
      Sender(claims, number, lastId, outbox, maxPending, error)
    }

    /** Opening a database drops the delivered rows that an earlier process left. */
    constructor (disk: Sender)
      ensures State() == M.PruneDelivered(disk)
    {
      claims, number, lastId, error := disk.claims, disk.number, disk.lastId, disk.lastError;
      maxPending := disk.maxPending;
      outbox := M.PruneDelivered(disk).outbox;
    }

    method CurrentSeq() returns (current: nat)
      ensures current == State().number
    {
      current := number;
    }

    method NextSeq() returns (next: nat)
      modifies this`number
      ensures next == number == old(number) + 1
    {
      number := number + 1;
      next := number;
    }

    method HasCapacity() returns (ok: bool)
      ensures ok <==> |Pending(State())| < State().maxPending
    {
      ok := |Pending(State())| < maxPending;
    }

    /** INSERT ... ON CONFLICT(jail, ip) DO UPDATE under UNIQUE(jail, ban_id). */
    method UpsertClaim(key: Key, banId: Uuid) returns (ok: bool)
      modifies this`claims
      ensures ok == Upsert(old(claims), key, banId).Some?
      ensures claims == if ok then Upsert(old(claims), key, banId).value else old(claims)
    {
      ok := !TakenByOther(claims, key, banId);
      if ok {
        claims := claims[key := Row(banId, true)];
      }
    }

    method CloseClaim(key: Key)
      modifies this`claims
      ensures claims == Release(old(claims), {key})
    {
      if key in claims {
        claims := claims[key := claims[key].(active := false)];
      }
    }

    /** INSERT INTO outbox under its two uniqueness constraints; the row identifier is never reused. */
    method InsertRow(payload: Payload, when: real) returns (ok: bool)
      modifies this`lastId, this`outbox
      ensures ok == !OutboxClash(old(State()), payload)
      ensures ok ==> lastId == old(lastId) + 1
                     && outbox == old(outbox)[lastId := OutRow(payload.Number(), payload, 0, when, None)]
      ensures !ok ==> lastId == old(lastId) && outbox == old(outbox)
    {
      ok := !OutboxClash(State(), payload);
      if ok {
        lastId := lastId + 1;
        outbox := outbox[lastId := OutRow(payload.Number(), payload, 0, when, None)];
      }
    }

    method Restore(claims': map<Key, Row>, number': nat)
      modifies this`claims, this`number
      ensures claims == claims' && number == number'
    {
      claims, number := claims', number';
    }

    /** One hook: nothing is kept of a hook that fails, and an accepted hook changes the claim, the
        allocator and the outbox together. */
    method Enqueue(op: Op, jail: Jail, ip: Ip, banId: Uuid, eventId: Uuid, when: real) returns (r: Result)
      modifies this
      ensures (State(), r) == M.Enqueue(old(State()), op, jail, ip, banId, eventId, when)
      ensures O.HookAnswered(old(State()), State(), r, op, jail, ip, banId, eventId, when)
    {
      hide O.HookAnswered;
      O.HookIsAnswered(State(), op, jail, ip, banId, eventId, when);
      if !SenderJail(jail) || !Admissible(ip) {
        return Invalid;
      }
      var key := Key(jail, ip);
      var before, start := claims, number;
      var opening := banId;
      if op.Ban? {
        if key in claims && claims[key].active {
          return Unchanged;
        }
        var ok := UpsertClaim(key, banId);
        if !ok {
          return Collision;
        }
      } else {
        if key !in claims || !claims[key].active {
          return Unchanged;
        }
        opening := claims[key].banId;
        CloseClaim(key);
        assert claims == before[key := Row(opening, false)];
      }
      var room := HasCapacity();
      if !room {
        Restore(before, start);
        return Full;
      }
      var next := NextSeq();
      var payload := EventPayload(Event(eventId, next, op, jail, opening, ip, Some(true), None));
      var inserted := InsertRow(payload, when);
      if !inserted {
        Restore(before, start);
        return Collision;
      }
      r := Enqueued(payload);
    }

    /** Rejects malformed and repeated entries and chooses an identity for each; runs before the
        transaction of the snapshot. */
    method NormalizeClaims(found: seq<Found>, drawn: seq<Uuid>) returns (r: Option<seq<Wanted>>)
      requires |found| == |drawn|
      ensures r == Normalize(State().claims, found, drawn)
    {
      var normalized: seq<Wanted> := [];
      var i := 0;
      while i < |found|
        invariant 0 <= i <= |found|
        invariant Normalize(claims, found[..i], drawn[..i]) == Some(normalized)
      {
        var key := Key(found[i].jail, found[i].ip);
        assert found[..i + 1][..i] == found[..i] && drawn[..i + 1][..i] == drawn[..i];
        if !SenderJail(found[i].jail) || !Admissible(found[i].ip) || key in Keys(normalized) {
          NoneForLonger(claims, found, drawn, i + 1);
          return None;
        }
        normalized := normalized + [Propose(claims, found[i], drawn[i])];
        i := i + 1;
      }
      assert found[..i] == found && drawn[..i] == drawn;
      r := Some(normalized);
    }

    /** The transaction of a snapshot. */
    method CommitSnapshot(wanted: seq<Wanted>, expected: Option<nat>, id: Uuid, when: real) returns (r: Result)
      modifies this
      ensures (State(), r) == M.Snapshot(old(State()), wanted, expected, id, when)
      ensures L.DistinctKeys(wanted) ==> O.SnapshotAnswered(old(State()), State(), r, wanted, expected, id, when)
    {
      hide O.SnapshotAnswered;
      hide L.DistinctKeys;
      if L.DistinctKeys(wanted) {
        O.SnapshotIsAnswered(State(), wanted, expected, id, when);
      }
      var current := CurrentSeq();
      if expected.Some? && current != expected.value {
        return Race;
      }
      var room := HasCapacity();
      if !room {
        return Full;
      }
      var saved, start := claims, number;
      var before := Active(claims);
      var ok := ReconcileRows(before, wanted);
      if !ok {
        Restore(saved, start);
        return Collision;
      }
      CloseAll(before.Keys - Keys(wanted));
      var next := NextSeq();
      var payload := SnapshotPayload(id, next, SnapshotClaims(before, wanted));
      var inserted := InsertRow(payload, when);
      if !inserted {
        Restore(saved, start);
        return Collision;
      }
      r := Enqueued(payload);
    }

    method EnqueueSnapshot(found: seq<Found>, drawn: seq<Uuid>, expected: Option<nat>, id: Uuid, when: real)
      returns (r: Result)
      requires |found| == |drawn|
      modifies this
      ensures (State(), r) == SnapshotOf(old(State()), found, drawn, expected, id, when)
      ensures r == Invalid <==> exists i | 0 <= i < |found| :: L.BadEntry(found, i)
    {
      L.NormalizeIsExact(claims, found, drawn);
      var normalized := NormalizeClaims(found, drawn);
      match normalized
      case None => r := Invalid;
      case Some(wanted) => r := CommitSnapshot(wanted, expected, id, when);
    }

    method ReconcileRows(before: map<Key, Uuid>, wanted: seq<Wanted>) returns (ok: bool)
      modifies this`claims
      ensures ok == UpsertAll(old(claims), before, wanted).Some?
      ensures ok ==> claims == UpsertAll(old(claims), before, wanted).value
    {
      var i := 0;
      while i < |wanted|
        invariant 0 <= i <= |wanted|
        invariant UpsertAll(old(claims), before, wanted) == UpsertAll(claims, before, wanted[i..])
      {
        assert wanted[i..][0] == wanted[i] && wanted[i..][1..] == wanted[i + 1..];
        ok := UpsertClaim(wanted[i].key, KeptBan(before, wanted[i]));
        if !ok {
          return;
        }
        i := i + 1;
      }
      ok := true;
    }

    /** Closes the claims of a set of keys, in whatever order. */
    method CloseAll(keys: set<Key>)
      modifies this`claims
      ensures claims == Release(old(claims), keys)
    {
      var rest := keys;
      while rest != {}
        invariant rest <= keys
        invariant claims == Release(old(claims), keys - rest)
        decreases |rest|
      {
        var key :| key in rest;
        CloseClaim(key);
        assert keys - (rest - {key}) == keys - rest + {key};
        rest := rest - {key};
      }
    }

    /** The row the worker may send now. */
    method NextDue(when: real) returns (due: Option<nat>)
      ensures due.Some? ==> IsDue(State(), due.value, when)
      ensures due.None? ==> forall id :: !IsDue(State(), id, when)
    {
      var s := State();
      var rows := set id | id in Pending(s) && IsDue(s, id, when);
      assert forall id :: IsDue(s, id, when) ==> id in rows;
      if rows == {} {
        return None;
      }
      var id :| id in rows;
      due := Some(id);
    }

    method MarkDelivered(id: nat, when: real)
      modifies this`outbox
      ensures State() == M.MarkDelivered(old(State()), id, when)
    {
      if id in outbox && outbox[id].deliveredAt.None? {
        outbox := outbox[id := outbox[id].(deliveredAt := Some(when))];
      }
    }

    method MarkRetry(id: nat, attempts: nat, when: real, delay: real)
      modifies this`outbox
      ensures State() == M.MarkRetry(old(State()), id, attempts, when + delay)
    {
      if id in outbox && outbox[id].deliveredAt.None? {
        outbox := outbox[id := outbox[id].(attempts := attempts, availableAt := when + delay)];
      }
    }

    method SetLastError(kind: string)
      modifies this`error
      ensures State() == old(State()).(lastError := Some(if |kind| <= 128 then kind else kind[..128]))
    {
      error := Some(if |kind| <= 128 then kind else kind[..128]);
    }

    method ClearLastError()
      modifies this`error
      ensures State() == old(State()).(lastError := None)
    {
      error := None;
    }
  }

  /** One refused entry refuses the whole list. */
  lemma {:induction false} NoneForLonger(claims: map<Key, Row>, found: seq<Found>, drawn: seq<Uuid>, n: nat)
    requires n <= |found| == |drawn| && Normalize(claims, found[..n], drawn[..n]).None?
    ensures Normalize(claims, found, drawn).None?
    decreases |found| - n
  {
    if n == |found| {
      assert found[..n] == found && drawn[..n] == drawn;
    } else {
      assert found[..n + 1][..n] == found[..n] && drawn[..n + 1][..n] == drawn[..n];
      NoneForLonger(claims, found, drawn, n + 1);
    }
  }
}
