/** All threads of the service and the serial helper: commits interleave, one thread at a time enforces
    under the lock, requests that timed out stay queued at the helper, and the helper takes them in
    order (src/f2bguard/server.py, src/f2bguard/pf_helper.py). */
module EnforcementOrder {
  import E = Enforcement
  import opened Networks
  import opened PfLaws
  import opened PfModel
  import opened Wire

  /** `version` is the store state right after the thread's own commit, `tag` the one it has read. */
  datatype Thread =
    | Waiting(version: nat)
    | Locked(version: nat)
    | Loading(version: nat, tag: nat)
    | Ready(version: nat, tag: nat, request: Request, attempts: nat)
    | Awaiting(version: nat, tag: nat, request: Request, attempts: nat, ticket: nat)
    | Enforced(version: nat, tag: nat)

  datatype Entry = Entry(ticket: nat, tag: nat, request: Request)

  datatype Reading = Reading(at: nat, list: seq<Network>)

  /** `history` lists the effective address sets in the order in which commits and the clock made them;
      `marks` says, per table, from which of them its contents stem (-1 before the first). `answers` maps the
      requests that the helper reported as done to the state behind them, and `readings` lists what the
      whitelist was every time it was read, with the newest state at that time. */
  datatype Service = Service(
    history: seq<set<Ip>>, threads: map<nat, Thread>, lock: Option<nat>,
    queue: seq<Entry>, nextTicket: nat, answers: map<nat, nat>,
    processed: seq<nat>, tables: Tables, marks: Pair<int>,
    confirmed: set<nat>, readings: seq<Reading>)

  /** A thread commits a write, or the timer starts one without a write of its own (its version is the
      first state); it waits for the lock, reads the effective addresses, reloads the whitelist, sends its
      request, and takes an answer or gives up on it. `TimeOut` stands for every attempt that ends without a
      success: no answer in time, an unreadable one, or a failure that the helper reports. `LoseEntry` is a
      queued request that the helper never sees, `Crash` a restart of the service alone. */
  datatype Move =
    | Commit(tid: nat, effective: set<Ip>)
    | Tick(effective: set<Ip>)
    | Periodic(tid: nat)
    | Acquire(tid: nat)
    | ReadDesired(tid: nat)
    | LoadWhitelist(tid: nat, list: Option<seq<Network>>, index: NetworkIndex)
    | SendRequest(tid: nat, reached: bool)
    | HelperStep(list: Option<seq<Network>>, endings: Endings)
    | LoseEntry(at: nat)
    | Reply(tid: nat)
    | TimeOut(tid: nat)
    | Respond(tid: nat, ok: bool)
    | Crash

  function Newest(s: Service): nat
    requires s.history != []
  {
    |s.history| - 1
  }

  /** What a reading of the whitelist adds; an unreadable one adds nothing. */
  function Seen(s: Service, list: Option<seq<Network>>): seq<Reading>
    requires s.history != []
  {
    if list.Some? then [Reading(Newest(s), list.value)] else []
  }

  function Step(s: Service, tid: nat, thread: Thread): Service {
    s.(threads := s.threads[tid := thread])
  }

  /** The thread ends; if it holds the lock it gives it up. */
  function End(s: Service, tid: nat): Service {
    s.(threads := s.threads - {tid}, lock := if s.lock == Some(tid) then None else s.lock)
  }

  /** After a failed attempt: try again, or give up with an error answer. */
  function AttemptFailed(s: Service, tid: nat, version: nat, tag: nat, request: Request, attempts: nat): Service {
    if attempts + 1 < E.RETRIES then Step(s, tid, Ready(version, tag, request, attempts + 1)) else End(s, tid)
  }

  /** From which state the contents stem after a replacement. */
  ghost function NewMark(s: Service, e: Entry, list: Option<seq<Network>>, endings: Endings, family: Family): int {
    if Wrote(s.tables, e.request, list, endings, family) && e.request.Replacement? && list.Some?
       && Replace(s.tables, e.request, list, endings).0.Of(family) == Hosts(Wanted(e.request, list.value, family))
    then e.tag
    else s.marks.Of(family)
  }

  ghost function Processed(s: Service, list: Option<seq<Network>>, endings: Endings): Service
    requires s.queue != [] && s.history != []
  {
    var e := s.queue[0];
    var (tables, answer) := Replace(s.tables, e.request, list, endings);
    s.(queue := s.queue[1..],
       processed := s.processed + [e.tag],
       tables := tables,
       marks := Pair(NewMark(s, e, list, endings, V4), NewMark(s, e, list, endings, V6)),
       answers := if answer.Replaced? then s.answers[e.ticket := e.tag] else s.answers,
       readings := s.readings + Seen(s, list))
  }

  /** One move; a move that is not possible changes nothing. */
  ghost function Perform(s: Service, m: Move): (r: Service)
    requires s.history != []
    ensures s.history <= r.history
  {
    match m
    case Commit(tid, effective) =>
      if tid in s.threads then s
      else s.(history := s.history + [effective], threads := s.threads[tid := Waiting(|s.history|)])
    case Tick(effective) => s.(history := s.history + [effective])
    case Periodic(tid) => if tid in s.threads then s else Step(s, tid, Waiting(0))
    case Acquire(tid) =>
      if tid in s.threads && s.threads[tid].Waiting? && s.lock.None?
      then Step(s, tid, Locked(s.threads[tid].version)).(lock := Some(tid))
      else s
    case ReadDesired(tid) =>
      if tid in s.threads && s.threads[tid].Locked? then Step(s, tid, Loading(s.threads[tid].version, Newest(s))) else s
    case LoadWhitelist(tid, list, index) =>
      if tid in s.threads && s.threads[tid].Loading? && s.threads[tid].tag < |s.history| then
        if list.None? then End(s, tid)
        else if index.WellFormed() && index.Represents(list.value) then
          var t := s.threads[tid];
          Step(s, tid, Ready(t.version, t.tag, E.RequestFor(s.history[t.tag], index), 0)).(
            readings := s.readings + Seen(s, list))
        else s
      else s
    case SendRequest(tid, reached) =>
      if tid in s.threads && s.threads[tid].Ready? then
        var t := s.threads[tid];
        if reached
        then Step(s, tid, Awaiting(t.version, t.tag, t.request, t.attempts, s.nextTicket)).(
               queue := s.queue + [Entry(s.nextTicket, t.tag, t.request)], nextTicket := s.nextTicket + 1)
        else AttemptFailed(s, tid, t.version, t.tag, t.request, t.attempts)
      else s
    case HelperStep(list, endings) => if s.queue == [] then s else Processed(s, list, endings)
    case LoseEntry(at) => if at < |s.queue| then s.(queue := s.queue[..at] + s.queue[at + 1..]) else s
    case Reply(tid) =>
      if tid in s.threads && s.threads[tid].Awaiting? && s.threads[tid].ticket in s.answers
      then Step(s, tid, Enforced(s.threads[tid].version, s.threads[tid].tag)).(lock := None)
      else s
    case TimeOut(tid) =>
      if tid in s.threads && s.threads[tid].Awaiting? then
        var t := s.threads[tid];
        AttemptFailed(s, tid, t.version, t.tag, t.request, t.attempts)
      else s
    case Respond(tid, ok) =>
      if tid in s.threads && s.threads[tid].Enforced?
      then s.(threads := s.threads - {tid},
              confirmed := if ok then s.confirmed + {s.threads[tid].version} else s.confirmed)
      else s
    case Crash => s.(threads := map[], lock := None)
  }

  // ---------------------------------------------------------------- the invariant

  predicate HoldsLock(t: Thread) {
    t.Locked? || t.Loading? || t.Ready? || t.Awaiting?
  }

  predicate HasTag(t: Thread) {
    t.Loading? || t.Ready? || t.Awaiting? || t.Enforced?
  }

  predicate Sorted(tags: seq<nat>) {
    forall i, j | 0 <= i < j < |tags| :: tags[i] <= tags[j]
  }

  /** The tags that have been processed, followed by those still queued. */
  function TagsOf(queue: seq<Entry>): seq<nat> {
    seq(|queue|, i requires 0 <= i < |queue| => queue[i].tag)
  }

  function Line(s: Service): seq<nat> {
    s.processed + TagsOf(s.queue)
  }

  /** Some reading of the whitelist, made when the given state or a later one was the newest, covered the
      address. */
  ghost predicate ListedSince(readings: seq<Reading>, start: int, ip: Ip) {
    exists r | r in readings :: start <= r.at && Listed(r.list, ip)
  }

  /** The requested addresses lie within the state they were read from, and miss nothing of it that no
      later reading of the whitelist covered. */
  ghost predicate RequestFits(request: Request, desired: set<Ip>, readings: seq<Reading>, start: int) {
    && request.Replacement?
    && (forall family, ip | ip in RequestIps(request, family) :: ip in desired && ip.family == family)
    && (forall ip | ip in desired && !ListedSince(readings, start, ip) :: ip in RequestIps(request, ip.family))
  }

  function RequestIps(request: Request, family: Family): set<Ip>
    requires request.Replacement?
  {
    IpsOf(if family == V4 then request.ipv4 else request.ipv6)
  }

  /** The same for a table. */
  ghost predicate TableFits(
    entries: set<Network>, desired: set<Ip>, readings: seq<Reading>, start: int, family: Family)
  {
    && (forall n | n in entries :: AddressOf(n) in desired && n.family == family)
    && (forall ip | ip in desired && ip.family == family && !ListedSince(readings, start, ip) :: HostEntry(ip) in entries)
  }

  ghost predicate LineOk(s: Service) {
    && Sorted(Line(s)) && (forall tag | tag in Line(s) :: tag < |s.history|)
    && (forall family, i | 0 <= i < |s.queue| :: s.marks.Of(family) <= s.queue[i].tag)
    && (forall family :: -1 <= s.marks.Of(family) < |s.history|)
    && (forall family :: s.marks.Of(family) == -1 || s.marks.Of(family) in s.processed)
  }

  ghost predicate TicketsOk(s: Service) {
    && (forall i | 0 <= i < |s.queue| :: s.queue[i].ticket < s.nextTicket)
    && (forall k | k in s.answers :: k < s.nextTicket)
    && (forall k, family | k in s.answers :: s.answers[k] <= s.marks.Of(family))
    && (forall i, j | 0 <= i < j < |s.queue| :: s.queue[i].ticket < s.queue[j].ticket)
    && (forall i | 0 <= i < |s.queue| :: s.queue[i].ticket !in s.answers)
    && (forall v, family | v in s.confirmed :: v <= s.marks.Of(family))
    && (forall v | v in s.confirmed :: DoneSince(s.answers, v))
  }

  /** The helper reported a request as done whose addresses were read at the given state or later. */
  ghost predicate DoneSince(answers: map<nat, nat>, version: nat) {
    exists k | k in answers :: version <= answers[k]
  }

  ghost predicate ThreadOk(s: Service, tid: nat, t: Thread) {
    && t.version < |s.history|
    && (HoldsLock(t) ==> s.lock == Some(tid))
    && (HasTag(t) ==> t.version <= t.tag < |s.history|)
    && (HasTag(t) && !t.Enforced? ==> forall tag | tag in Line(s) :: tag <= t.tag)
    && (t.Ready? || t.Awaiting? ==> t.tag < |s.history| && RequestFits(t.request, s.history[t.tag], s.readings, t.tag))
    && (t.Awaiting? ==>
          && t.ticket < s.nextTicket
          && (forall i | 0 <= i < |s.queue| && s.queue[i].ticket == t.ticket :: s.queue[i].tag == t.tag)
          && (t.ticket in s.answers ==> s.answers[t.ticket] == t.tag))
    && (t.Enforced? ==> DoneSince(s.answers, t.tag) && forall family :: t.tag <= s.marks.Of(family))
  }

  ghost predicate ContentsOk(s: Service) {
    && (forall i | 0 <= i < |s.queue| ::
          && s.queue[i].tag < |s.history|
          && RequestFits(s.queue[i].request, s.history[s.queue[i].tag], s.readings, s.queue[i].tag))
    && (forall family | 0 <= s.marks.Of(family) < |s.history| ::
          TableFits(s.tables.Of(family), s.history[s.marks.Of(family)], s.readings, s.marks.Of(family), family))
  }

  ghost predicate Inv(s: Service) {
    && s.history != []
    && LineOk(s) && TicketsOk(s) && ContentsOk(s)
    && (forall tid | tid in s.threads :: ThreadOk(s, tid, s.threads[tid]))
    && (s.lock.Some? ==> s.lock.value in s.threads && HoldsLock(s.threads[s.lock.value]))
  }

  // ---------------------------------------------------------------- what only grows

  lemma MoreReadings(a: seq<Reading>, b: seq<Reading>, start: int, ip: Ip)
    ensures ListedSince(a + b, start, ip) <==> ListedSince(a, start, ip) || ListedSince(b, start, ip)
  {
    hide Listed;
  }

  lemma OneReading(r: Reading, start: int, ip: Ip)
    ensures ListedSince([r], start, ip) <==> start <= r.at && Listed(r.list, ip)
  {
    hide Listed;
    assert r in [r];
  }

  lemma RequestFitsMore(request: Request, desired: set<Ip>, readings: seq<Reading>, more: seq<Reading>, start: int)
    requires RequestFits(request, desired, readings, start)
    ensures RequestFits(request, desired, readings + more, start)
  {
    hide ListedSince;
    forall ip | ip in desired && !ListedSince(readings + more, start, ip)
      ensures ip in RequestIps(request, ip.family)
    {
      MoreReadings(readings, more, start, ip);
    }
  }

  lemma TableFitsMore(
    entries: set<Network>, desired: set<Ip>, readings: seq<Reading>, more: seq<Reading>, start: int, family: Family)
    requires TableFits(entries, desired, readings, start, family)
    ensures TableFits(entries, desired, readings + more, start, family)
  {
    hide ListedSince;
    forall ip | ip in desired && ip.family == family && !ListedSince(readings + more, start, ip)
      ensures HostEntry(ip) in entries
    {
      MoreReadings(readings, more, start, ip);
    }
  }

  lemma HistoryGrows(s: Service, effective: set<Ip>)
    requires Inv(s)
    ensures Inv(s.(history := s.history + [effective]))
  {
    hide RequestFits;
    hide TableFits;
    hide Sorted;
    var after := s.(history := s.history + [effective]);
    assert Line(after) == Line(s);
    forall tid | tid in after.threads
      ensures ThreadOk(after, tid, after.threads[tid])
    {
      assert ThreadOk(s, tid, s.threads[tid]);
    }
  }

  lemma ReadingsGrow(s: Service, more: seq<Reading>)
    requires Inv(s)
    ensures Inv(s.(readings := s.readings + more))
  {
    hide RequestFits;
    hide TableFits;
    hide Sorted;
    var after := s.(readings := s.readings + more);
    assert Line(after) == Line(s);
    forall tid | tid in after.threads
      ensures ThreadOk(after, tid, after.threads[tid])
    {
      var t := s.threads[tid];
      assert ThreadOk(s, tid, t);
      if t.Ready? || t.Awaiting? {
        RequestFitsMore(t.request, s.history[t.tag], s.readings, more, t.tag);
      }
    }
    forall i | 0 <= i < |s.queue|
      ensures RequestFits(s.queue[i].request, s.history[s.queue[i].tag], after.readings, s.queue[i].tag)
    {
      RequestFitsMore(s.queue[i].request, s.history[s.queue[i].tag], s.readings, more, s.queue[i].tag);
    }
    forall family | 0 <= s.marks.Of(family) < |s.history|
      ensures TableFits(s.tables.Of(family), s.history[s.marks.Of(family)], after.readings, s.marks.Of(family), family)
    {
      TableFitsMore(s.tables.Of(family), s.history[s.marks.Of(family)], s.readings, more, s.marks.Of(family), family);
    }
  }

  // ---------------------------------------------------------------- one thread moves

  /** A thread changes its state, possibly taking or giving up the lock. */
  lemma ThreadMoves(s: Service, tid: nat, t: Thread, lock: Option<nat>)
    requires Inv(s)
    requires lock == if HoldsLock(t) then Some(tid) else if s.lock == Some(tid) then None else s.lock
    requires HoldsLock(t) ==> s.lock == None || s.lock == Some(tid)
    requires ThreadOk(s.(lock := lock), tid, t)
    ensures Inv(Step(s, tid, t).(lock := lock))
  {
    hide LineOk;
    hide TicketsOk;
    hide ContentsOk;
    hide RequestFits;
    hide Sorted;
    hide Line;
    var after := Step(s, tid, t).(lock := lock);
    SameLine(s, after);
    SameLine(s, s.(lock := lock));
    forall o | o in after.threads
      ensures ThreadOk(after, o, after.threads[o])
    {
      if o == tid {
        assert ThreadOk(s.(lock := lock), tid, t);
      } else {
        assert ThreadOk(s, o, s.threads[o]);
      }
    }
  }

  lemma SameLine(s: Service, after: Service)
    requires after == s.(threads := after.threads, lock := after.lock, confirmed := after.confirmed)
    ensures Line(after) == Line(s)
    ensures LineOk(s) ==> LineOk(after)
    ensures ContentsOk(s) ==> ContentsOk(after)
    ensures TicketsOk(s) && after.confirmed == s.confirmed ==> TicketsOk(after)
  {
    hide RequestFits;
    hide TableFits;
    hide Sorted;
    assert Line(after) == Line(s);
  }

  lemma ThreadEnds(s: Service, tid: nat)
    requires Inv(s)
    ensures Inv(End(s, tid))
  {
    hide LineOk;
    hide TicketsOk;
    hide ContentsOk;
    hide RequestFits;
    var after := End(s, tid);
    assert Line(after) == Line(s);
    SameLine(s, after);
    forall o | o in after.threads
      ensures ThreadOk(after, o, after.threads[o])
    {
      assert ThreadOk(s, o, s.threads[o]);
    }
  }

  lemma FailedAttemptKeepsInv(s: Service, tid: nat)
    requires Inv(s) && tid in s.threads && (s.threads[tid].Ready? || s.threads[tid].Awaiting?)
    ensures var t := s.threads[tid]; Inv(AttemptFailed(s, tid, t.version, t.tag, t.request, t.attempts))
  {
    hide LineOk;
    hide TicketsOk;
    hide ContentsOk;
    hide RequestFits;
    var t := s.threads[tid];
    assert ThreadOk(s, tid, t);
    if t.attempts + 1 < E.RETRIES {
      var next := Ready(t.version, t.tag, t.request, t.attempts + 1);
      assert s.(lock := Some(tid)) == s;
      ThreadMoves(s, tid, next, Some(tid));
      assert Step(s, tid, next).(lock := Some(tid)) == Step(s, tid, next);
    } else {
      ThreadEnds(s, tid);
    }
  }

  /** The request built from a state under the lock fits that state. */
  lemma BuiltRequestFits(desired: set<Ip>, r: Reading, index: NetworkIndex, readings: seq<Reading>, start: int)
    requires index.WellFormed() && index.Represents(r.list) && start <= r.at
    ensures RequestFits(E.RequestFor(desired, index), desired, readings + [r], start)
  {
    hide NetworkIndex.WellFormed;
    hide NetworkIndex.Represents;
    hide E.RequestFor;
    hide Listed;
    hide ListedSince;
    E.RequestIsReplacement(desired, index);
    E.RequestedSet(desired, index, r.list, V4);
    E.RequestedSet(desired, index, r.list, V6);
    forall ip | ip in desired && !ListedSince(readings + [r], start, ip)
      ensures !Listed(r.list, ip)
    {
      MoreReadings(readings, [r], start, ip);
      OneReading(r, start, ip);
    }
  }

  lemma WhitelistLoads(s: Service, tid: nat, list: seq<Network>, index: NetworkIndex)
    requires Inv(s) && tid in s.threads && s.threads[tid].Loading? && s.threads[tid].tag < |s.history|
    requires index.WellFormed() && index.Represents(list)
    ensures Inv(Perform(s, LoadWhitelist(tid, Some(list), index)))
  {
    hide LineOk;
    hide TicketsOk;
    hide ContentsOk;
    hide RequestFits;
    hide E.RequestFor;
    hide NetworkIndex.WellFormed;
    hide NetworkIndex.Represents;
    var t := s.threads[tid];
    var r := Reading(Newest(s), list);
    ReadingsGrow(s, [r]);
    var grown := s.(readings := s.readings + [r]);
    assert ThreadOk(s, tid, t);
    assert Line(grown) == Line(s);
    BuiltRequestFits(s.history[t.tag], r, index, s.readings, t.tag);
    var next := Ready(t.version, t.tag, E.RequestFor(s.history[t.tag], index), 0);
    ThreadMoves(grown, tid, next, Some(tid));
  }

  // ---------------------------------------------------------------- the queue

  lemma LineAppends(s: Service, e: Entry, nextTicket: nat)
    ensures Line(s.(queue := s.queue + [e], nextTicket := nextTicket)) == Line(s) + [e.tag]
  {
    assert TagsOf(s.queue + [e]) == TagsOf(s.queue) + [e.tag];
  }

  lemma RequestIsQueued(s: Service, tid: nat)
    requires Inv(s) && tid in s.threads && s.threads[tid].Ready?
    ensures Inv(Perform(s, SendRequest(tid, true)))
  {
    hide RequestFits;
    hide TableFits;
    hide TicketsOk;
    hide ContentsOk;
    hide LineOk;
    var t := s.threads[tid];
    assert ThreadOk(s, tid, t);
    var e := Entry(s.nextTicket, t.tag, t.request);
    var queued := s.(queue := s.queue + [e], nextTicket := s.nextTicket + 1);
    QueuedKeepsInv(s, tid, e);
    var next := Awaiting(t.version, t.tag, t.request, t.attempts, s.nextTicket);
    assert ThreadOk(queued, tid, t);
    NewTicket(s, e);
    assert ThreadOk(queued, tid, next);
    assert queued.(lock := Some(tid)) == queued;
    ThreadMoves(queued, tid, next, Some(tid));
  }

  lemma NewTicket(s: Service, e: Entry)
    requires TicketsOk(s) && e.ticket == s.nextTicket
    ensures e.ticket !in s.answers
    ensures forall i | 0 <= i < |s.queue| :: s.queue[i].ticket != e.ticket
  {
  }

  lemma QueuedKeepsInv(s: Service, tid: nat, e: Entry)
    requires Inv(s) && tid in s.threads && s.threads[tid].Ready?
    requires e == Entry(s.nextTicket, s.threads[tid].tag, s.threads[tid].request)
    ensures Inv(s.(queue := s.queue + [e], nextTicket := s.nextTicket + 1))
  {
    hide RequestFits;
    hide TableFits;
    hide Line;
    hide Sorted;
    hide DoneSince;
    var after := s.(queue := s.queue + [e], nextTicket := s.nextTicket + 1);
    assert ThreadOk(s, tid, s.threads[tid]);
    LineAppends(s, e, s.nextTicket + 1);
    SortedAppends(Line(s), e.tag);
    MarksBelowLine(s, e.tag);
    assert forall tag | tag in Line(after) :: tag in Line(s) || tag == e.tag;
    assert LineOk(after) && TicketsOk(after) && ContentsOk(after);
    forall o | o in after.threads
      ensures ThreadOk(after, o, after.threads[o])
    {
      hide ContentsOk;
      assert ThreadOk(s, o, s.threads[o]);
    }
  }

  lemma SortedAppends(tags: seq<nat>, tag: nat)
    requires Sorted(tags) && forall t | t in tags :: t <= tag
    ensures Sorted(tags + [tag])
  {
    assert forall i | 0 <= i < |tags| :: tags[i] in tags;
  }

  lemma MarksBelowLine(s: Service, bound: nat)
    requires LineOk(s) && forall tag | tag in Line(s) :: tag <= bound
    ensures forall family :: s.marks.Of(family) <= bound
  {
    forall family
      ensures s.marks.Of(family) <= bound
    {
      if s.marks.Of(family) in s.processed {
        assert s.marks.Of(family) in Line(s);
      }
    }
  }

  // ---------------------------------------------------------------- the helper takes one request

  lemma HostsFit(request: Request, desired: set<Ip>, readings: seq<Reading>, r: Reading, start: int, family: Family)
    requires RequestFits(request, desired, readings, start) && start <= r.at
    ensures TableFits(Hosts(Wanted(request, r.list, family)), desired, readings + [r], start, family)
  {
    hide Listed;
    hide ListedSince;
    hide IpsOf;
    var entries := Hosts(Wanted(request, r.list, family));
    forall ip | ip in desired && ip.family == family && !ListedSince(readings + [r], start, ip)
      ensures HostEntry(ip) in entries
    {
      MoreReadings(readings, [r], start, ip);
      OneReading(r, start, ip);
      assert ip in RequestIps(request, ip.family);
      assert ip in Wanted(request, r.list, family);
    }
    HostsCarryTheirAddress(Wanted(request, r.list, family));
    forall n | n in entries
      ensures AddressOf(n) in desired && n.family == family
    {
      assert AddressOf(n) in RequestIps(request, family);
    }
  }

  lemma SafeFits(entries: set<Network>, desired: set<Ip>, readings: seq<Reading>, r: Reading, start: int, family: Family)
    requires TableFits(entries, desired, readings, start, family) && start <= r.at
    ensures TableFits(Safe(entries, r.list), desired, readings + [r], start, family)
  {
    hide Listed;
    hide ListedSince;
    forall ip | ip in desired && ip.family == family && !ListedSince(readings + [r], start, ip)
      ensures HostEntry(ip) in Safe(entries, r.list)
    {
      MoreReadings(readings, [r], start, ip);
      OneReading(r, start, ip);
      assert AddressOf(HostEntry(ip)) == ip;
    }
  }

  /** Whatever commands fail, each table still fits the state its new mark names. */
  lemma HelperTableFits(s: Service, list: Option<seq<Network>>, endings: Endings, family: Family)
    requires Inv(s) && s.queue != []
    ensures var after := Processed(s, list, endings);
            var mark := after.marks.Of(family);
            0 <= mark < |s.history| ==> TableFits(after.tables.Of(family), s.history[mark], after.readings, mark, family)
  {
    hide Replace;
    hide Wrote;
    hide Hosts;
    hide Wanted;
    hide Safe;
    hide TableFits;
    hide RequestFits;
    hide LineOk;
    hide TicketsOk;
    hide ThreadOk;
    var e := s.queue[0];
    EachTableIsOneOfThree(s.tables, e.request, list, endings, family);
    assert e.tag < |s.history| && RequestFits(e.request, s.history[e.tag], s.readings, e.tag);
    var mark := s.marks.Of(family);
    if !Wrote(s.tables, e.request, list, endings, family) {
      if 0 <= mark < |s.history| {
        TableFitsMore(s.tables.Of(family), s.history[mark], s.readings, Seen(s, list), mark, family);
      }
    } else {
      var r := Reading(Newest(s), list.value);
      HostsFit(e.request, s.history[e.tag], s.readings, r, e.tag, family);
      if 0 <= mark < |s.history| {
        SafeFits(s.tables.Of(family), s.history[mark], s.readings, r, mark, family);
      }
    }
  }

  lemma HelperLine(s: Service, list: Option<seq<Network>>, endings: Endings)
    requires s.queue != [] && s.history != []
    ensures Line(Processed(s, list, endings)) == Line(s)
  {
    hide Replace;
    assert TagsOf(s.queue) == [s.queue[0].tag] + TagsOf(s.queue[1..]);
  }

  /** A mark only moves forward, and reaches the request's own state if the helper reports success. */
  lemma HelperMarks(s: Service, list: Option<seq<Network>>, endings: Endings, family: Family)
    requires LineOk(s) && s.queue != [] && s.history != []
    ensures var after := Processed(s, list, endings);
            var e := s.queue[0];
            && s.marks.Of(family) <= after.marks.Of(family)
            && (after.marks.Of(family) == s.marks.Of(family) || after.marks.Of(family) == e.tag)
            && (Replace(s.tables, e.request, list, endings).1.Replaced? ==> after.marks.Of(family) == e.tag)
  {
    hide Hosts;
    hide Wanted;
    hide Safe;
    hide AcceptableRequest;
    hide DigestOf;
    hide Sorted;
    hide Line;
    hide Replace;
    ReplacementIsAllOrPrior(s.tables, s.queue[0].request, list, endings, family);
    assert s.marks.Of(family) <= s.queue[0].tag;
  }

  lemma HelperLineOk(s: Service, list: Option<seq<Network>>, endings: Endings)
    requires LineOk(s) && s.queue != [] && s.history != []
    ensures LineOk(Processed(s, list, endings))
  {
    hide Replace;
    hide NewMark;
    var after := Processed(s, list, endings);
    HelperLine(s, list, endings);
    HelperMarks(s, list, endings, V4);
    HelperMarks(s, list, endings, V6);
    var e := s.queue[0];
    var n := |s.processed|;
    assert Line(s)[n] == e.tag;
    forall i | 0 <= i < |after.queue|
      ensures e.tag <= after.queue[i].tag && after.queue[i] == s.queue[i + 1]
    {
      assert Line(s)[n + i + 1] == s.queue[i + 1].tag;
    }
    assert e.tag in Line(s);
    assert e.tag in after.processed;
    forall family
      ensures after.marks.Of(family) == -1 || after.marks.Of(family) in after.processed
      ensures -1 <= after.marks.Of(family) < |after.history|
      ensures forall i | 0 <= i < |after.queue| :: after.marks.Of(family) <= after.queue[i].tag
    {
      assert family == V4 || family == V6;
    }
  }

  lemma HelperKeepsDone(s: Service, list: Option<seq<Network>>, endings: Endings, version: nat)
    requires TicketsOk(s) && s.queue != [] && s.history != [] && DoneSince(s.answers, version)
    ensures DoneSince(Processed(s, list, endings).answers, version)
  {
    hide Replace;
    hide NewMark;
    var k :| k in s.answers && version <= s.answers[k];
    assert s.queue[0].ticket !in s.answers;
    assert k in Processed(s, list, endings).answers;
  }

  lemma HelperTicketsOk(s: Service, list: Option<seq<Network>>, endings: Endings)
    requires LineOk(s) && TicketsOk(s) && s.queue != [] && s.history != []
    ensures TicketsOk(Processed(s, list, endings))
  {
    hide Replace;
    hide NewMark;
    hide LineOk;
    hide DoneSince;
    var after := Processed(s, list, endings);
    HelperMarks(s, list, endings, V4);
    HelperMarks(s, list, endings, V6);
    assert forall i | 0 <= i < |after.queue| :: after.queue[i] == s.queue[i + 1];
    forall family
      ensures forall k | k in after.answers :: after.answers[k] <= after.marks.Of(family)
      ensures forall v | v in after.confirmed :: v <= after.marks.Of(family)
    {
      assert family == V4 || family == V6;
    }
    forall v | v in after.confirmed
      ensures DoneSince(after.answers, v)
    {
      HelperKeepsDone(s, list, endings, v);
    }
  }

  lemma HelperThreadOk(s: Service, list: Option<seq<Network>>, endings: Endings, tid: nat)
    requires Inv(s) && s.queue != [] && tid in s.threads
    ensures ThreadOk(Processed(s, list, endings), tid, s.threads[tid])
  {
    hide Replace;
    hide NewMark;
    hide RequestFits;
    hide LineOk;
    hide DoneSince;
    hide TicketsOk;
    hide ContentsOk;
    hide Line;
    var after := Processed(s, list, endings);
    var t := s.threads[tid];
    assert ThreadOk(s, tid, t);
    HelperLine(s, list, endings);
    HelperMarks(s, list, endings, V4);
    HelperMarks(s, list, endings, V6);
    assert forall i | 0 <= i < |after.queue| :: after.queue[i] == s.queue[i + 1];
    if t.Ready? || t.Awaiting? {
      RequestFitsMore(t.request, s.history[t.tag], s.readings, Seen(s, list), t.tag);
    }
    if t.Enforced? {
      HelperKeepsDone(s, list, endings, t.tag);
      forall family
        ensures t.tag <= after.marks.Of(family)
      {
        assert family == V4 || family == V6;
      }
    }
  }

  lemma HelperContentsOk(s: Service, list: Option<seq<Network>>, endings: Endings)
    requires Inv(s) && s.queue != []
    ensures ContentsOk(Processed(s, list, endings))
  {
    hide Replace;
    hide NewMark;
    hide RequestFits;
    hide TableFits;
    hide LineOk;
    hide TicketsOk;
    hide ThreadOk;
    var after := Processed(s, list, endings);
    var more := Seen(s, list);
    forall i | 0 <= i < |after.queue|
      ensures after.queue[i].tag < |s.history|
        && RequestFits(after.queue[i].request, s.history[after.queue[i].tag], after.readings, after.queue[i].tag)
    {
      assert after.queue[i] == s.queue[i + 1];
      RequestFitsMore(s.queue[i + 1].request, s.history[s.queue[i + 1].tag], s.readings, more, s.queue[i + 1].tag);
    }
    forall family | 0 <= after.marks.Of(family) < |s.history|
      ensures TableFits(after.tables.Of(family), s.history[after.marks.Of(family)], after.readings,
                        after.marks.Of(family), family)
    {
      HelperTableFits(s, list, endings, family);
    }
  }

  lemma HelperKeepsInv(s: Service, list: Option<seq<Network>>, endings: Endings)
    requires Inv(s) && s.queue != []
    ensures Inv(Processed(s, list, endings))
  {
    hide LineOk;
    hide TicketsOk;
    hide ContentsOk;
    hide ThreadOk;
    hide Replace;
    hide NewMark;
    HelperLineOk(s, list, endings);
    HelperTicketsOk(s, list, endings);
    HelperContentsOk(s, list, endings);
    forall tid | tid in s.threads
      ensures ThreadOk(Processed(s, list, endings), tid, s.threads[tid])
    {
      HelperThreadOk(s, list, endings, tid);
    }
  }

  // ---------------------------------------------------------------- the other moves

  lemma LineShrinks(s: Service, at: nat)
    requires at < |s.queue|
    ensures var after := s.(queue := s.queue[..at] + s.queue[at + 1..]);
            && (forall i | 0 <= i < |after.queue| :: after.queue[i] == s.queue[if i < at then i else i + 1])
            && (forall tag | tag in Line(after) :: tag in Line(s))
            && (Sorted(Line(s)) ==> Sorted(Line(after)))
  {
    var after := s.(queue := s.queue[..at] + s.queue[at + 1..]);
    var cut := |s.processed| + at;
    assert Line(after) == Line(s)[..cut] + Line(s)[cut + 1..];
  }

  lemma EntryLost(s: Service, at: nat)
    requires Inv(s) && at < |s.queue|
    ensures Inv(s.(queue := s.queue[..at] + s.queue[at + 1..]))
  {
    hide RequestFits;
    hide TableFits;
    hide Sorted;
    hide Line;
    hide DoneSince;
    var after := s.(queue := s.queue[..at] + s.queue[at + 1..]);
    LineShrinks(s, at);
    assert LineOk(after) && TicketsOk(after) && ContentsOk(after);
    forall tid | tid in after.threads
      ensures ThreadOk(after, tid, after.threads[tid])
    {
      hide ContentsOk;
      assert ThreadOk(s, tid, s.threads[tid]);
    }
  }

  lemma ReplyKeepsInv(s: Service, tid: nat)
    requires Inv(s) && tid in s.threads && s.threads[tid].Awaiting? && s.threads[tid].ticket in s.answers
    ensures Inv(Perform(s, Reply(tid)))
  {
    hide LineOk;
    hide ContentsOk;
    hide RequestFits;
    hide Line;
    var t := s.threads[tid];
    assert ThreadOk(s, tid, t);
    ThreadMoves(s, tid, Enforced(t.version, t.tag), None);
  }

  /** A success answer is given only once both tables stem from the write's own state or a later one. */
  lemma AnswerKeepsInv(s: Service, tid: nat, ok: bool)
    requires Inv(s) && tid in s.threads && s.threads[tid].Enforced?
    ensures Inv(Perform(s, Respond(tid, ok)))
  {
    hide LineOk;
    hide ContentsOk;
    hide RequestFits;
    hide Line;
    hide DoneSince;
    var after := Perform(s, Respond(tid, ok));
    SameLine(s, after);
    assert ThreadOk(s, tid, s.threads[tid]);
    DoneEarlier(s.answers, s.threads[tid].version, s.threads[tid].tag);
    forall o | o in after.threads
      ensures ThreadOk(after, o, after.threads[o])
    {
      assert ThreadOk(s, o, s.threads[o]);
    }
  }

  lemma DoneEarlier(answers: map<nat, nat>, earlier: nat, version: nat)
    requires DoneSince(answers, version) && earlier <= version
    ensures DoneSince(answers, earlier)
  {
  }

  lemma CommitKeepsInv(s: Service, tid: nat, effective: set<Ip>)
    requires Inv(s) && tid !in s.threads
    ensures Inv(Perform(s, Commit(tid, effective)))
  {
    hide LineOk;
    hide TicketsOk;
    hide ContentsOk;
    hide RequestFits;
    HistoryGrows(s, effective);
    var grown := s.(history := s.history + [effective]);
    assert grown.(lock := s.lock) == grown;
    assert s.lock != Some(tid);
    ThreadMoves(grown, tid, Waiting(|s.history|), s.lock);
  }

  lemma QuietMoveKeepsInv(s: Service, m: Move)
    requires Inv(s) && (m.Periodic? || m.Acquire? || m.ReadDesired? || m.Crash?)
    ensures Inv(Perform(s, m))
  {
    hide TicketsOk;
    hide ContentsOk;
    hide RequestFits;
    hide Sorted;
    assert s.(lock := s.lock) == s;
    match m
    case Periodic(tid) =>
      if tid !in s.threads {
        ThreadMoves(s, tid, Waiting(0), s.lock);
      }
    case Acquire(tid) =>
      if tid in s.threads && s.threads[tid].Waiting? && s.lock.None? {
        assert ThreadOk(s, tid, s.threads[tid]);
        ThreadMoves(s, tid, Locked(s.threads[tid].version), Some(tid));
      }
    case ReadDesired(tid) =>
      if tid in s.threads && s.threads[tid].Locked? {
        assert ThreadOk(s, tid, s.threads[tid]);
        ThreadMoves(s, tid, Loading(s.threads[tid].version, Newest(s)), Some(tid));
      }
    case Crash =>
      SameLine(s, Perform(s, m));
  }

  /** Every move keeps the invariant. */
  lemma PerformKeepsInv(s: Service, m: Move)
    requires Inv(s)
    ensures Inv(Perform(s, m))
  {
    hide LineOk;
    hide TicketsOk;
    hide ContentsOk;
    hide ThreadOk;
    hide Processed;
    hide AttemptFailed;
    hide End;
    hide E.RequestFor;
    match m
    case Commit(tid, effective) => if tid !in s.threads { CommitKeepsInv(s, tid, effective); }
    case Tick(effective) => HistoryGrows(s, effective);
    case LoadWhitelist(tid, list, index) =>
      if tid in s.threads && s.threads[tid].Loading? && s.threads[tid].tag < |s.history| {
        if list.None? {
          ThreadEnds(s, tid);
        } else if index.WellFormed() && index.Represents(list.value) {
          WhitelistLoads(s, tid, list.value, index);
        }
      }
    case SendRequest(tid, reached) =>
      if tid in s.threads && s.threads[tid].Ready? {
        if reached { RequestIsQueued(s, tid); } else { FailedAttemptKeepsInv(s, tid); }
      }
    case HelperStep(list, endings) => if s.queue != [] { HelperKeepsInv(s, list, endings); }
    case LoseEntry(at) => if at < |s.queue| { EntryLost(s, at); }
    case Reply(tid) =>
      if tid in s.threads && s.threads[tid].Awaiting? && s.threads[tid].ticket in s.answers { ReplyKeepsInv(s, tid); }
    case TimeOut(tid) => if tid in s.threads && s.threads[tid].Awaiting? { FailedAttemptKeepsInv(s, tid); }
    case Respond(tid, ok) => if tid in s.threads && s.threads[tid].Enforced? { AnswerKeepsInv(s, tid, ok); }
    case _ => QuietMoveKeepsInv(s, m);
  }

  // ---------------------------------------------------------------- whole runs

  /** A service that starts with any stored state and any table contents. */
  function Start(effective: set<Ip>, tables: Tables): Service {
    Service([effective], map[], None, [], 0, map[], [], tables, Pair(-1, -1), {}, [])
  }

  ghost function Run(s: Service, moves: seq<Move>): (r: Service)
    requires s.history != []
    ensures s.history <= r.history
    decreases |moves|
  {
    if moves == [] then s else Run(Perform(s, moves[0]), moves[1..])
  }

  lemma {:induction false} RunKeepsInv(s: Service, moves: seq<Move>)
    requires Inv(s)
    ensures Inv(Run(s, moves))
    decreases |moves|
  {
    hide Inv;
    hide Perform;
    HistoryNotEmpty(s);
    if moves != [] {
      PerformKeepsInv(s, moves[0]);
      RunKeepsInv(Perform(s, moves[0]), moves[1..]);
    }
  }

  lemma HistoryNotEmpty(s: Service)
    requires Inv(s)
    ensures s.history != []
  {
  }

  /** What no move takes back. */
  predicate Extends(before: Service, after: Service) {
    && before.processed <= after.processed && before.confirmed <= after.confirmed
    && before.marks.v4 <= after.marks.v4 && before.marks.v6 <= after.marks.v6
  }

  lemma MoveExtends(s: Service, m: Move)
    requires Inv(s)
    ensures Extends(s, Perform(s, m))
  {
    hide Replace;
    hide NewMark;
    hide LineOk;
    hide TicketsOk;
    hide ContentsOk;
    hide ThreadOk;
    hide E.RequestFor;
    if m.HelperStep? && s.queue != [] {
      HelperMarks(s, m.list, m.endings, V4);
      HelperMarks(s, m.list, m.endings, V6);
    }
  }

  /** Over every run the confirmed writes, the processed requests and both marks only grow. */
  lemma {:induction false} RunExtends(s: Service, moves: seq<Move>)
    requires Inv(s)
    ensures Inv(Run(s, moves)) && Extends(s, Run(s, moves))
    decreases |moves|
  {
    hide Inv;
    hide Perform;
    HistoryNotEmpty(s);
    if moves != [] {
      PerformKeepsInv(s, moves[0]);
      MoveExtends(s, moves[0]);
      RunExtends(Perform(s, moves[0]), moves[1..]);
    }
  }

  lemma StartIsOk(effective: set<Ip>, tables: Tables)
    ensures Inv(Start(effective, tables))
  {
    hide RequestFits;
    hide TableFits;
    hide ListedSince;
    hide ThreadOk;
    hide DoneSince;
    var s := Start(effective, tables);
    assert Line(s) == [];
    assert LineOk(s);
    assert TicketsOk(s);
    assert ContentsOk(s);
  }

  /** Over every run, with any number of threads, time-outs, retries, lost entries and restarts, the store
      states behind the requests that the helper processes never go backwards. */
  lemma ProcessedStatesNeverGoBack(effective: set<Ip>, tables: Tables, moves: seq<Move>)
    ensures var s := Run(Start(effective, tables), moves);
            && (forall i, j | 0 <= i < j < |s.processed| :: s.processed[i] <= s.processed[j])
            && (forall tag | tag in s.processed :: tag < |s.history|)
  {
    hide Perform;
    StartIsOk(effective, tables);
    RunKeepsInv(Start(effective, tables), moves);
    var s := Run(Start(effective, tables), moves);
    assert LineOk(s) && Line(s)[..|s.processed|] == s.processed;
    assert forall i | 0 <= i < |s.processed| :: Line(s)[i] == s.processed[i];
    assert forall tag | tag in s.processed :: tag in Line(s);
  }

  /** The table reflects the state `version` and those that followed it. */
  ghost predicate Reflects(s: Service, version: nat, family: Family) {
    && (forall n | n in s.tables.Of(family) ::
          exists v | version <= v < |s.history| :: AddressOf(n) in s.history[v])
    && (forall ip: Ip | ip.family == family && !ListedSince(s.readings, version, ip) ::
          (forall v | version <= v < |s.history| :: ip in s.history[v]) ==> HostEntry(ip) in s.tables.Of(family))
  }

  /** A write answered with success stays enforced: at its answer, and at every later point of every run
      whichever later commands fail, the helper has completed a request that was read after the commit, no
      table holds an address that no state since the write wanted, and none lacks an address that every
      state since wanted and no reading of the whitelist since covered. */
  lemma AnsweredWriteStaysEnforced(
    effective: set<Ip>, tables: Tables, moves: seq<Move>, later: seq<Move>, version: nat, family: Family)
    requires version in Run(Start(effective, tables), moves).confirmed
    ensures var s := Run(Run(Start(effective, tables), moves), later);
            && version < |s.history| && DoneSince(s.answers, version)
            && Reflects(s, version, family)
  {
    hide Perform;
    StartIsOk(effective, tables);
    RunKeepsInv(Start(effective, tables), moves);
    RunExtends(Run(Start(effective, tables), moves), later);
    MarkReflects(Run(Run(Start(effective, tables), moves), later), version, family);
  }

  lemma MarkReflects(s: Service, version: nat, family: Family)
    requires Inv(s) && version in s.confirmed
    ensures version < |s.history| && Reflects(s, version, family) && DoneSince(s.answers, version)
  {
    hide ThreadOk;
    hide RequestFits;
    hide Listed;
    hide Sorted;
    hide Line;
    hide DoneSince;
    var mark := s.marks.Of(family);
    assert version <= mark;
    assert TableFits(s.tables.Of(family), s.history[mark], s.readings, mark, family);
    forall n | n in s.tables.Of(family)
      ensures exists v | version <= v < |s.history| :: AddressOf(n) in s.history[v]
    {
      assert AddressOf(n) in s.history[mark];
    }
    assert forall ip :: ListedSince(s.readings, mark, ip) ==> ListedSince(s.readings, version, ip);
  }

  lemma UndisturbedSend(s: Service, tid: nat, list: seq<Network>) returns (moves: seq<Move>)
    requires s.history != [] && tid in s.threads && s.threads[tid].Ready?
    requires s.queue == [] && s.tables == Pair({}, {}) && AcceptableRequest(s.threads[tid].request)
    ensures s.threads[tid].version in Run(s, moves).confirmed
  {
    hide AcceptableRequest;
    hide NewMark;
    hide Unlisted;
    hide DigestOf;
    hide Run;
    var done := Endings(Done, Done, Done, Done, Done, Done);
    var sent := Perform(s, SendRequest(tid, true));
    var taken := Perform(sent, HelperStep(Some(list), done));
    var told := Perform(taken, Reply(tid));
    NoMove(Perform(told, Respond(tid, true)));
    moves := FirstMove(told, Respond(tid, true), []);
    moves := FirstMove(taken, Reply(tid), moves);
    moves := FirstMove(sent, HelperStep(Some(list), done), moves);
    moves := FirstMove(s, SendRequest(tid, true), moves);
  }

  /** The claim is not empty: a write whose enforcement nothing disturbs is answered with success. */
  lemma UndisturbedWriteIsAnswered(now: set<Ip>, list: seq<Network>, index: NetworkIndex) returns (moves: seq<Move>)
    requires index.WellFormed() && index.Represents(list)
    requires AcceptableRequest(E.RequestFor(now, index))
    ensures 1 in Run(Start({}, Pair({}, {})), moves).confirmed
  {
    hide NetworkIndex.WellFormed;
    hide NetworkIndex.Represents;
    hide E.RequestFor;
    hide AcceptableRequest;
    hide Processed;
    hide Run;
    var s := Start({}, Pair({}, {}));
    var committed := Perform(s, Commit(7, now));
    var locked := Perform(committed, Acquire(7));
    var read := Perform(locked, ReadDesired(7));
    var ready := Perform(read, LoadWhitelist(7, Some(list), index));
    moves := UndisturbedSend(ready, 7, list);
    moves := FirstMove(read, LoadWhitelist(7, Some(list), index), moves);
    moves := FirstMove(locked, ReadDesired(7), moves);
    moves := FirstMove(committed, Acquire(7), moves);
    moves := FirstMove(s, Commit(7, now), moves);
  }

  lemma FirstMove(s: Service, m: Move, rest: seq<Move>) returns (moves: seq<Move>)
    requires s.history != []
    ensures Run(s, moves) == Run(Perform(s, m), rest)
  {
    moves := [m] + rest;
  }

  lemma NoMove(s: Service)
    requires s.history != []
    ensures Run(s, []) == s
  {
  }
}
