/** What trimming a history to its cap keeps. */
module Retention {
  import opened ReceiverModel
  import opened Sets
  import opened Wire

  /** What the rows of a history are ordered by: the time of receipt, then the number. */
  datatype Stamp = Stamp(at: real, number: nat) {
    predicate After(other: Stamp) {
      at > other.at || (at == other.at && number > other.number)
    }
  }

  predicate DistinctNumbers(stamps: map<EntryId, Stamp>) {
    forall k, l | k in stamps && l in stamps && stamps[k].number == stamps[l].number :: k == l
  }

  function Above(stamps: map<EntryId, Stamp>, k: EntryId): set<EntryId>
    requires k in stamps
  {
    set o | o in stamps && stamps[o].After(stamps[k])
  }

  function Top(stamps: map<EntryId, Stamp>, cap: nat): set<EntryId> {
    set k | k in stamps && |Above(stamps, k)| < cap
  }

  lemma {:induction false} OldestExists(stamps: map<EntryId, Stamp>) returns (oldest: EntryId)
    requires DistinctNumbers(stamps) && stamps != map[]
    ensures oldest in stamps && forall o | o in stamps && o != oldest :: stamps[o].After(stamps[oldest])
    decreases |stamps|
  {
    oldest :| oldest in stamps.Keys;
    var first := oldest;
    var rest := stamps - {first};
    if rest != map[] {
      assert stamps.Keys == rest.Keys + {first};
      var other := OldestExists(rest);
      if stamps[first].After(stamps[other]) {
        oldest := other;
      }
    } else {
      assert forall o | o in stamps :: o == first || o in rest;
    }
  }

  /** The oldest row stands below all others and above none. */
  lemma TopWithout(stamps: map<EntryId, Stamp>, oldest: EntryId, cap: nat)
    requires oldest in stamps && forall o | o in stamps && o != oldest :: stamps[o].After(stamps[oldest])
    ensures var rest := Top(stamps - {oldest}, cap);
            oldest !in rest && Top(stamps, cap) == if |stamps| <= cap then rest + {oldest} else rest
  {
    assert Above(stamps, oldest) == stamps.Keys - {oldest};
    assert |stamps.Keys| == |stamps|;
    forall k | k in stamps && k != oldest
      ensures Above(stamps, k) == Above(stamps - {oldest}, k)
    {
    }
  }

  lemma {:induction false} TopSize(stamps: map<EntryId, Stamp>, cap: nat)
    requires DistinctNumbers(stamps)
    ensures |Top(stamps, cap)| == if |stamps| < cap then |stamps| else cap
    decreases |stamps|
  {
    hide Above;
    if stamps == map[] {
      assert Top(stamps, cap) == {};
    } else {
      var oldest := OldestExists(stamps);
      assert stamps.Keys == (stamps - {oldest}).Keys + {oldest};
      assert |stamps.Keys| == |stamps| && |(stamps - {oldest}).Keys| == |stamps - {oldest}|;
      TopSize(stamps - {oldest}, cap);
      TopWithout(stamps, oldest, cap);
    }
  }

  lemma AboveIsSmaller(stamps: map<EntryId, Stamp>, a: EntryId, b: EntryId)
    requires a in stamps && b in stamps && stamps[a].After(stamps[b])
    ensures |Above(stamps, a)| < |Above(stamps, b)|
  {
    var above, below := Above(stamps, a), Above(stamps, b);
    assert above <= below && a in below && a !in above;
    SubsetSize(above + {a}, below);
  }

  /** Kept rows are newer than dropped ones. */
  lemma TopIsNewest(stamps: map<EntryId, Stamp>, cap: nat, kept: EntryId, dropped: EntryId)
    requires DistinctNumbers(stamps) && kept in Top(stamps, cap) && dropped in stamps && dropped !in Top(stamps, cap)
    ensures stamps[kept].After(stamps[dropped])
  {
    if stamps[dropped].After(stamps[kept]) {
      AboveIsSmaller(stamps, dropped, kept);
    }
  }

  // ---------------------------------------------------------------- events

  function EventStamps(rows: map<EntryId, EventRow>, client: Client): map<EntryId, Stamp> {
    map k | k in rows && k.client == client :: Stamp(rows[k].receivedAt, rows[k].event.number)
  }

  /** Rows of other clients stay, the client keeps its newest rows up to the cap, and no row changes. */
  ghost predicate KeepsNewestEvents(
    before: map<EntryId, EventRow>, after: map<EntryId, EventRow>, client: Client, cap: nat)
  {
    var had, has := EventStamps(before, client), EventStamps(after, client);
    && (forall k | k in after :: k in before && after[k] == before[k])
    && (forall k | k in before && k.client != client :: k in after)
    && |has| == (if |had| < cap then |had| else cap)
    && (forall a, b | a in has && b in had && b !in has :: has[a].After(had[b]))
  }

  lemma EventTop(rows: map<EntryId, EventRow>, client: Client, cap: nat)
    ensures EventStamps(TrimEvents(rows, client, cap), client).Keys == Top(EventStamps(rows, client), cap)
  {
    var stamps := EventStamps(rows, client);
    forall k | k in stamps
      ensures (set o | o in rows && o.client == client && NewerEvent(rows[o], rows[k])) == Above(stamps, k)
    {
    }
  }

  lemma TrimOnlyDropsOwnEvents(rows: map<EntryId, EventRow>, client: Client, cap: nat)
    ensures var after := TrimEvents(rows, client, cap);
            && (forall k | k in after :: k in rows && after[k] == rows[k])
            && (forall k | k in rows && k.client != client :: k in after)
            && (forall k | k in EventStamps(after, client) ::
                 k in EventStamps(rows, client) && EventStamps(after, client)[k] == EventStamps(rows, client)[k])
  {
  }

  lemma TrimKeepsNewestEvents(rows: map<EntryId, EventRow>, client: Client, cap: nat)
    requires DistinctNumbers(EventStamps(rows, client))
    ensures KeepsNewestEvents(rows, TrimEvents(rows, client, cap), client, cap)
  {
    hide TrimEvents;
    hide EventStamps;
    hide Top;
    hide DistinctNumbers;
    hide Stamp.After;
    var had, has := EventStamps(rows, client), EventStamps(TrimEvents(rows, client, cap), client);
    TrimOnlyDropsOwnEvents(rows, client, cap);
    EventTop(rows, client, cap);
    TopSize(had, cap);
    assert |has.Keys| == |has|;
    forall a, b | a in has && b in had && b !in has
      ensures has[a].After(had[b])
    {
      TopIsNewest(had, cap, a, b);
    }
  }

  // ---------------------------------------------------------------- snapshots

  function SnapshotStamps(rows: map<EntryId, SnapshotRow>, client: Client): map<EntryId, Stamp> {
    map k | k in rows && k.client == client :: Stamp(rows[k].receivedAt, rows[k].number)
  }

  /** The same for snapshots. */
  ghost predicate KeepsNewestSnapshots(
    before: map<EntryId, SnapshotRow>, after: map<EntryId, SnapshotRow>, client: Client, cap: nat)
  {
    var had, has := SnapshotStamps(before, client), SnapshotStamps(after, client);
    && (forall k | k in after :: k in before && after[k] == before[k])
    && (forall k | k in before && k.client != client :: k in after)
    && |has| == (if |had| < cap then |had| else cap)
    && (forall a, b | a in has && b in had && b !in has :: has[a].After(had[b]))
  }

  lemma SnapshotTop(rows: map<EntryId, SnapshotRow>, client: Client, cap: nat)
    ensures SnapshotStamps(TrimSnapshots(rows, client, cap), client).Keys == Top(SnapshotStamps(rows, client), cap)
  {
    var stamps := SnapshotStamps(rows, client);
    forall k | k in stamps
      ensures (set o | o in rows && o.client == client && NewerSnapshot(rows[o], rows[k])) == Above(stamps, k)
    {
    }
  }

  lemma TrimOnlyDropsOwnSnapshots(rows: map<EntryId, SnapshotRow>, client: Client, cap: nat)
    ensures var after := TrimSnapshots(rows, client, cap);
            && (forall k | k in after :: k in rows && after[k] == rows[k])
            && (forall k | k in rows && k.client != client :: k in after)
            && (forall k | k in SnapshotStamps(after, client) ::
                 k in SnapshotStamps(rows, client)
                 && SnapshotStamps(after, client)[k] == SnapshotStamps(rows, client)[k])
  {
  }

  lemma TrimKeepsNewestSnapshots(rows: map<EntryId, SnapshotRow>, client: Client, cap: nat)
    requires DistinctNumbers(SnapshotStamps(rows, client))
    ensures KeepsNewestSnapshots(rows, TrimSnapshots(rows, client, cap), client, cap)
  {
    hide TrimSnapshots;
    hide SnapshotStamps;
    hide Top;
    hide DistinctNumbers;
    hide Stamp.After;
    var had, has := SnapshotStamps(rows, client), SnapshotStamps(TrimSnapshots(rows, client, cap), client);
    TrimOnlyDropsOwnSnapshots(rows, client, cap);
    SnapshotTop(rows, client, cap);
    TopSize(had, cap);
    assert |has.Keys| == |has|;
    forall a, b | a in has && b in had && b !in has
      ensures has[a].After(had[b])
    {
      TopIsNewest(had, cap, a, b);
    }
  }
}
