/** The receiver's durable state and what each request does to it (src/f2bguard/store.py). A payload
    hash is modelled as the payload itself. */
module ReceiverModel {
  import opened Wire

  /** The three row limits of the module. */
  datatype Caps = Caps(events: nat, snapshots: nat, total: nat)
  const SOURCE_CAPS := Caps(100_000, 1_000, 100_000)

  datatype ClaimId = ClaimId(client: Client, jail: Jail, banId: Uuid)
  datatype ClaimRow = ClaimRow(ip: Ip, permanent: bool, expiresAt: Option<real>)

  /** Primary key of both history tables. */
  datatype EntryId = EntryId(client: Client, id: Uuid)
  datatype EventRow = EventRow(event: Event, receivedAt: real)
  datatype SnapshotRow = SnapshotRow(number: nat, claims: seq<Claim>, receivedAt: real)

  datatype Tables = Tables(
    lastSeq: map<Client, nat>,
    claims: map<ClaimId, ClaimRow>,
    events: map<EntryId, EventRow>,
    snapshots: map<EntryId, SnapshotRow>)

  const EMPTY := Tables(map[], map[], map[], map[])

  datatype Refusal = Malformed | Conflict | ClientLimit | GlobalLimit | Integrity

  datatype Outcome =
    | Applied(last: nat)
    | Duplicate(last: nat)
    | Stale(last: nat)
    | Refused(why: Refusal)

  datatype Request =
    | Events(client: Client, events: seq<Event>, limit: int)
    | Replace(client: Client, id: Uuid, number: nat, claims: seq<Claim>, limit: int)

  // ---------------------------------------------------------------- validation

  predicate WellFormedEvent(e: Event) {
    && 0 < e.number <= MAX_NUMBER
    && ReceiverJail(e.jail) && Admissible(e.ip)
    && (e.op.Ban? ==> e.permanent.Some?)
  }

  predicate Rising(events: seq<Event>) {
    forall i, j | 0 <= i < j < |events| :: events[i].number < events[j].number
  }

  predicate DistinctEventIds(events: seq<Event>) {
    forall i, j | 0 <= i < j < |events| :: events[i].id != events[j].id
  }

  predicate DistinctIdentities(claims: seq<Claim>) {
    forall i, j | 0 <= i < j < |claims| :: (claims[i].jail, claims[i].banId) != (claims[j].jail, claims[j].banId)
  }

  predicate ValidEvents(events: seq<Event>, maximum: nat) {
    && events != [] && |events| <= maximum
    && (forall e | e in events :: WellFormedEvent(e))
    && Rising(events) && DistinctEventIds(events)
  }

  predicate ValidSnapshot(number: nat, claims: seq<Claim>, maximum: nat) {
    && 0 < number <= MAX_NUMBER && |claims| <= maximum
    && (forall c | c in claims :: ReceiverJail(c.jail) && Admissible(c.ip))
    && DistinctIdentities(claims)
  }

  // ---------------------------------------------------------------- rows

  function LastSeq(t: Tables, client: Client): nat {
    if client in t.lastSeq then t.lastSeq[client] else 0
  }

  function Registered(t: Tables, client: Client): Tables {
    t.(lastSeq := t.lastSeq[client := LastSeq(t, client)])
  }

  function ClientRows(claims: map<ClaimId, ClaimRow>, client: Client): map<ClaimId, ClaimRow> {
    map id | id in claims && id.client == client :: claims[id]
  }

  function OtherRows(claims: map<ClaimId, ClaimRow>, client: Client): map<ClaimId, ClaimRow> {
    map id | id in claims && id.client != client :: claims[id]
  }

  function RowOfEvent(e: Event): ClaimRow {
    ClaimRow(e.ip, e.permanent == Some(true), e.expiresAt)
  }

  function RowOfClaim(c: Claim): ClaimRow {
    ClaimRow(c.ip, c.permanent, c.expiresAt)
  }

  /** The rows a snapshot inserts. */
  function RowsOfClaims(client: Client, claims: seq<Claim>): map<ClaimId, ClaimRow> {
    if claims == [] then map[]
    else
      var last := claims[|claims| - 1];
      RowsOfClaims(client, claims[..|claims| - 1])[ClaimId(client, last.jail, last.banId) := RowOfClaim(last)]
  }

  predicate SameIpIfHeld(claims: map<ClaimId, ClaimRow>, id: ClaimId, ip: Ip) {
    id in claims ==> claims[id].ip == ip
  }

  /** The statement that an event runs, once its identity check has passed. */
  function Effect(claims: map<ClaimId, ClaimRow>, client: Client, e: Event): map<ClaimId, ClaimRow> {
    var id := ClaimId(client, e.jail, e.banId);
    if e.op.Ban? then claims[id := RowOfEvent(e)]
    else if id in claims && claims[id].ip == e.ip then claims - {id}
    else claims
  }

  // ---------------------------------------------------------------- history

  predicate NewerEvent(a: EventRow, b: EventRow) {
    a.receivedAt > b.receivedAt || (a.receivedAt == b.receivedAt && a.event.number > b.event.number)
  }

  predicate NewerSnapshot(a: SnapshotRow, b: SnapshotRow) {
    a.receivedAt > b.receivedAt || (a.receivedAt == b.receivedAt && a.number > b.number)
  }

  /** Keeps the newest `cap` rows of one client. */
  function TrimEvents(events: map<EntryId, EventRow>, client: Client, cap: nat): map<EntryId, EventRow> {
    map k | k in events &&
      (k.client == client ==>
        |set o | o in events && o.client == client && NewerEvent(events[o], events[k])| < cap) :: events[k]
  }

  function TrimSnapshots(rows: map<EntryId, SnapshotRow>, client: Client, cap: nat): map<EntryId, SnapshotRow> {
    map k | k in rows &&
      (k.client == client ==>
        |set o | o in rows && o.client == client && NewerSnapshot(rows[o], rows[k])| < cap) :: rows[k]
  }

  /** Deleting any part of the history, as the periodic age-based prune does. */
  function Prune(t: Tables, events: set<EntryId>, snapshots: set<EntryId>): Tables {
    t.(events := t.events - events, snapshots := t.snapshots - snapshots)
  }

  /** The rows that the age-based prune deletes. */
  function OldEvents(t: Tables, boundary: real): set<EntryId> {
    set k | k in t.events && t.events[k].receivedAt < boundary
  }

  function OldSnapshots(t: Tables, boundary: real): set<EntryId> {
    set k | k in t.snapshots && t.snapshots[k].receivedAt < boundary
  }

  // ---------------------------------------------------------------- events

  datatype Step = Next(tables: Tables) | Stop(why: Refusal)

  predicate EventKeyTaken(t: Tables, client: Client, e: Event) {
    || EntryId(client, e.id) in t.events
    || exists k | k in t.events :: k.client == client && t.events[k].event.number == e.number
  }

  function ApplyOne(t: Tables, client: Client, e: Event, now: real): Step {
    if !SameIpIfHeld(t.claims, ClaimId(client, e.jail, e.banId), e.ip) then Stop(Conflict)
    else if EventKeyTaken(t, client, e) then Stop(Integrity)
    else Next(t.(claims := Effect(t.claims, client, e),
                 events := t.events[EntryId(client, e.id) := EventRow(e, now)]))
  }

  function ApplyEach(t: Tables, client: Client, events: seq<Event>, now: real): Step
    decreases |events|
  {
    if events == [] then Next(t)
    else
      match ApplyOne(t, client, events[0], now)
      case Stop(why) => Stop(why)
      case Next(after) => ApplyEach(after, client, events[1..], now)
  }

  predicate Known(t: Tables, client: Client, e: Event) {
    EntryId(client, e.id) in t.events
  }

  predicate Mismatched(t: Tables, client: Client, e: Event) {
    Known(t, client, e) && t.events[EntryId(client, e.id)].event != e
  }

  function ApplyEvents(t: Tables, client: Client, events: seq<Event>, limit: int, caps: Caps, now: real)
    : (Tables, Outcome)
  {
    if events == [] || !Rising(events) then (t, Refused(Malformed))
    else
      var t0 := Registered(t, client);
      var last := t0.lastSeq[client];
      if exists e | e in events :: Mismatched(t, client, e) then (t, Refused(Conflict))
      else if events[0].number <= last then
        if events[|events| - 1].number > last then (t, Refused(Conflict))
        else if forall e | e in events :: Known(t, client, e) then (t0, Duplicate(last))
        else (t0, Stale(last))
      else if exists e | e in events :: Known(t, client, e) then (t, Refused(Conflict))
      else
        match ApplyEach(t0, client, events, now)
        case Stop(why) => (t, Refused(why))
        case Next(t1) => Commit(t, t1, client, events[|events| - 1].number, limit, caps)
  }

  /** The limits, checked once after the last event, and the final writes. */
  function Commit(t: Tables, t1: Tables, client: Client, number: nat, limit: int, caps: Caps): (Tables, Outcome) {
    if |ClientRows(t1.claims, client)| > limit then (t, Refused(ClientLimit))
    else if |t1.claims| > caps.total then (t, Refused(GlobalLimit))
    else
      (t1.(lastSeq := t1.lastSeq[client := number], events := TrimEvents(t1.events, client, caps.events)),
       Applied(number))
  }

  // ---------------------------------------------------------------- snapshots

  predicate SnapshotKeyTaken(t: Tables, client: Client, id: Uuid, number: nat) {
    || EntryId(client, id) in t.snapshots
    || exists k | k in t.snapshots :: k.client == client && t.snapshots[k].number == number
  }

  predicate Rebinds(t: Tables, client: Client, claims: seq<Claim>) {
    exists c | c in claims :: !SameIpIfHeld(t.claims, ClaimId(client, c.jail, c.banId), c.ip)
  }

  function ApplySnapshot(
    t: Tables, client: Client, id: Uuid, number: nat, claims: seq<Claim>, limit: int, caps: Caps, now: real)
    : (Tables, Outcome)
  {
    var t0 := Registered(t, client);
    var last := t0.lastSeq[client];
    var key := EntryId(client, id);
    if |claims| > limit then (t, Refused(ClientLimit))
    else if key in t.snapshots && (t.snapshots[key].number != number || t.snapshots[key].claims != claims) then
      (t, Refused(Conflict))
    else if number <= last then (t0, if key in t.snapshots then Duplicate(last) else Stale(last))
    else if Rebinds(t, client, claims) then (t, Refused(Conflict))
    else if !DistinctIdentities(claims) then (t, Refused(Integrity))
    else
      var rows := OtherRows(t.claims, client) + RowsOfClaims(client, claims);
      if |rows| > caps.total then (t, Refused(GlobalLimit))
      else if SnapshotKeyTaken(t, client, id, number) then (t, Refused(Integrity))
      else
        (Replaced(t, client, rows, id, SnapshotRow(number, claims, now), caps), Applied(number))
  }

  function Replaced(t: Tables, client: Client, rows: map<ClaimId, ClaimRow>, id: Uuid, entry: SnapshotRow, caps: Caps)
    : Tables
  {
    t.(claims := rows, lastSeq := t.lastSeq[client := entry.number],
       snapshots := TrimSnapshots(t.snapshots[EntryId(client, id) := entry], client, caps.snapshots))
  }

  // ---------------------------------------------------------------- requests

  function Apply(t: Tables, request: Request, caps: Caps, now: real): (Tables, Outcome) {
    match request
    case Events(client, events, limit) => ApplyEvents(t, client, events, limit, caps, now)
    case Replace(client, id, number, claims, limit) => ApplySnapshot(t, client, id, number, claims, limit, caps, now)
  }

  predicate Valid(request: Request, maximum: nat) {
    match request
    case Events(_, events, _) => ValidEvents(events, maximum)
    case Replace(_, _, number, claims, _) => ValidSnapshot(number, claims, maximum)
  }

  // ---------------------------------------------------------------- what is enforced

  predicate InForce(row: ClaimRow, now: real) {
    row.permanent && (row.expiresAt.None? || row.expiresAt.value > now)
  }

  function EffectiveIps(claims: map<ClaimId, ClaimRow>, now: real): set<Ip> {
    set id | id in claims && InForce(claims[id], now) :: claims[id].ip
  }
}
