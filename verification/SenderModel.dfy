/** The sender's durable state and what each of its operations does to it (client/sender.py). */
module SenderModel {
  import opened Wire

  /** Primary key of the sender's claims table. */
  datatype Key = Key(jail: Jail, ip: Ip)
  datatype Row = Row(banId: Uuid, active: bool)

  datatype OutRow = OutRow(
    number: nat, payload: Payload, attempts: nat, availableAt: real, deliveredAt: Option<real>)

  /** The three tables. `number` is the metadata value of the sequence allocator, `lastId` the
      autoincrement counter of the outbox. */
  datatype Sender = Sender(
    claims: map<Key, Row>, number: nat, lastId: nat, outbox: map<nat, OutRow>,
    maxPending: int, lastError: Option<string>)

  datatype Result =
    | Enqueued(payload: Payload)
    | Unchanged    // the hook was already recorded
    | Full         // the outbox is at its bound
    | Race         // the sequence fence failed
    | Collision    // a uniqueness constraint failed
    | Invalid      // malformed or duplicate input

  function Opened(maxPending: int): Sender {
    Sender(map[], 0, 0, map[], maxPending, None)
  }

  function Active(claims: map<Key, Row>): map<Key, Uuid> {
    map k | k in claims && claims[k].active :: claims[k].banId
  }

  function Pending(s: Sender): set<nat> {
    set id | id in s.outbox && s.outbox[id].deliveredAt.None?
  }

  // ---------------------------------------------------------------- tables

  /** UNIQUE(jail, ban_id), over active and inactive rows alike. */
  predicate TakenByOther(claims: map<Key, Row>, key: Key, banId: Uuid) {
    exists k | k in claims :: k != key && k.jail == key.jail && claims[k].banId == banId
  }

  function Upsert(claims: map<Key, Row>, key: Key, banId: Uuid): Option<map<Key, Row>> {
    if TakenByOther(claims, key, banId) then None else Some(claims[key := Row(banId, true)])
  }

  /** UNIQUE(seq) and UNIQUE(event_id). */
  predicate OutboxClash(s: Sender, payload: Payload) {
    exists id | id in s.outbox ::
      s.outbox[id].number == payload.Number() || s.outbox[id].payload.Id() == payload.Id()
  }

  function WithClaims(s: Sender, claims: map<Key, Row>, payload: Payload, when: real): Sender {
    s.(claims := claims, number := s.number + 1, lastId := s.lastId + 1,
       outbox := s.outbox[s.lastId + 1 := OutRow(s.number + 1, payload, 0, when, None)])
  }

  function Emit(s: Sender, claims: map<Key, Row>, payload: Payload, when: real): (Sender, Result) {
    if |Pending(s)| >= s.maxPending then (s, Full)
    else if OutboxClash(s, payload) then (s, Collision)
    else (WithClaims(s, claims, payload, when), Enqueued(payload))
  }

  // ---------------------------------------------------------------- hooks

  function EventFor(s: Sender, op: Op, jail: Jail, ip: Ip, banId: Uuid, eventId: Uuid): Payload {
    EventPayload(Event(eventId, s.number + 1, op, jail, banId, ip, Some(true), None))
  }

  /** One ban or unban hook; the two identifiers are the drawn UUIDs. */
  function Enqueue(s: Sender, op: Op, jail: Jail, ip: Ip, banId: Uuid, eventId: Uuid, when: real)
    : (Sender, Result)
  {
    var key := Key(jail, ip);
    var active := key in s.claims && s.claims[key].active;
    if !SenderJail(jail) || !Admissible(ip) then (s, Invalid)
    else if active == op.Ban? then (s, Unchanged)
    else if op.Ban? then
      match Upsert(s.claims, key, banId)
      case None => (s, Collision)
      case Some(claims) => Emit(s, claims, EventFor(s, op, jail, ip, banId, eventId), when)
    else
      var opening := s.claims[key].banId;
      Emit(s, s.claims[key := Row(opening, false)], EventFor(s, op, jail, ip, opening, eventId), when)
  }

  // ---------------------------------------------------------------- snapshots

  /** One enumerated ban; the command line never supplies an identity. */
  datatype Found = Found(jail: Jail, ip: Ip, banId: Option<Uuid>)

  /** An entry of the normalised snapshot with the identity proposed for it. */
  datatype Wanted = Wanted(key: Key, banId: Uuid)

  function Keys(wanted: seq<Wanted>): set<Key> {
    set w | w in wanted :: w.key
  }

  function Propose(claims: map<Key, Row>, found: Found, drawn: Uuid): Wanted {
    var key := Key(found.jail, found.ip);
    Wanted(key,
           if key in claims && claims[key].active then claims[key].banId
           else if found.banId.Some? then found.banId.value
           else drawn)
  }

  /** The normalisation that runs before the transaction, with one drawn identity per entry. */
  function Normalize(claims: map<Key, Row>, found: seq<Found>, drawn: seq<Uuid>): (r: Option<seq<Wanted>>)
    requires |found| == |drawn|
  {
    if found == [] then Some([])
    else
      var last := found[|found| - 1];
      match Normalize(claims, found[..|found| - 1], drawn[..|found| - 1])
      case None => None
      case Some(front) =>
        if !SenderJail(last.jail) || !Admissible(last.ip) || Key(last.jail, last.ip) in Keys(front) then None
        else Some(front + [Propose(claims, last, drawn[|found| - 1])])
  }

  function KeptBan(before: map<Key, Uuid>, w: Wanted): Uuid {
    if w.key in before then before[w.key] else w.banId
  }

  function UpsertAll(claims: map<Key, Row>, before: map<Key, Uuid>, wanted: seq<Wanted>): Option<map<Key, Row>>
    decreases |wanted|
  {
    if wanted == [] then Some(claims)
    else
      match Upsert(claims, wanted[0].key, KeptBan(before, wanted[0]))
      case None => None
      case Some(next) => UpsertAll(next, before, wanted[1..])
  }

  function Release(claims: map<Key, Row>, keys: set<Key>): map<Key, Row> {
    map k | k in claims :: if k in keys then claims[k].(active := false) else claims[k]
  }

  function SnapshotClaims(before: map<Key, Uuid>, wanted: seq<Wanted>): (r: seq<Claim>)
    ensures |r| == |wanted|
  {
    seq(|wanted|, i requires 0 <= i < |wanted| =>
      Claim(wanted[i].key.jail, KeptBan(before, wanted[i]), wanted[i].key.ip, true, None))
  }

  /** The snapshot transaction. */
  function Snapshot(s: Sender, wanted: seq<Wanted>, expected: Option<nat>, id: Uuid, when: real): (Sender, Result) {
    if expected.Some? && s.number != expected.value then (s, Race)
    else if |Pending(s)| >= s.maxPending then (s, Full)
    else
      var before := Active(s.claims);
      match UpsertAll(s.claims, before, wanted)
      case None => (s, Collision)
      case Some(claims) =>
        Emit(s, Release(claims, before.Keys - Keys(wanted)),
             SnapshotPayload(id, s.number + 1, SnapshotClaims(before, wanted)), when)
  }

  // ---------------------------------------------------------------- delivery

  /** The row the worker may send: the lowest undelivered number, once its wait is over. */
  predicate IsDue(s: Sender, id: nat, when: real) {
    && id in Pending(s)
    && s.outbox[id].availableAt <= when
    && forall other | other in Pending(s) :: s.outbox[id].number <= s.outbox[other].number
  }

  function MarkDelivered(s: Sender, id: nat, when: real): Sender {
    if id in Pending(s) then s.(outbox := s.outbox[id := s.outbox[id].(deliveredAt := Some(when))]) else s
  }

  function MarkRetry(s: Sender, id: nat, attempts: nat, until: real): Sender {
    if id in Pending(s)
    then s.(outbox := s.outbox[id := s.outbox[id].(attempts := attempts, availableAt := until)])
    else s
  }

  function PruneDelivered(s: Sender): Sender {
    s.(outbox := map id | id in s.outbox && s.outbox[id].deliveredAt.None? :: s.outbox[id])
  }

  function Doubled(n: nat): (r: real)
    ensures r >= 1.0
  {
    if n == 0 then 1.0 else 2.0 * Doubled(n - 1)
  }

  function Capped(wait: real, maximum: real): real {
    if wait < maximum then wait else maximum
  }

  /** The wait after the given number of failed attempts. */
  function Backoff(initial: real, maximum: real, attempts: nat): real
    requires attempts >= 1
  {
    Capped(initial * Doubled(if attempts - 1 < 20 then attempts - 1 else 20), maximum)
  }
}
