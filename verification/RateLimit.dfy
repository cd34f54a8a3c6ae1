/** The sliding-window request limiter of the HTTPS listener (src/f2bguard/server.py). */
module RateLimit {
  import opened Sets
  import opened Wire

  const WINDOW := 60.0

  /** The deque after its expired head entries have been popped. */
  function Trimmed(history: seq<real>, current: real): seq<real> {
    if history != [] && history[0] <= current - WINDOW then Trimmed(history[1..], current) else history
  }

  datatype Decision = Decision(allowed: bool, history: seq<real>)

  function Decide(limit: int, history: seq<real>, current: real): Decision {
    var kept := Trimmed(history, current);
    if |kept| >= limit then Decision(false, kept) else Decision(true, kept + [current])
  }

  class RateLimiter {
    const limit: int
    var requests: map<Client, seq<real>>

    constructor (requestsPerMinute: int)
      ensures limit == requestsPerMinute && requests == map[]
    {
      limit := requestsPerMinute;
      requests := map[];
    }

    /** The client's deque, popped and appended to in place. */
    method Allow(client: Client, current: real) returns (allowed: bool)
      modifies this
      ensures Call(limit, old(requests), client, current) == (requests, allowed)
    {
      var history := if client in requests then requests[client] else [];
      ghost var start := history;
      while history != [] && history[0] <= current - WINDOW
        invariant Trimmed(history, current) == Trimmed(start, current)
        decreases |history|
      {
        history := history[1..];
      }
      allowed := |history| < limit;
      if allowed {
        history := history + [current];
      }
      requests := requests[client := history];
    }
  }

  /** One call on the table of deques. */
  function Call(limit: int, requests: map<Client, seq<real>>, client: Client, current: real)
    : (map<Client, seq<real>>, bool)
  {
    var decision := Decide(limit, HistoryOf(requests, client), current);
    (requests[client := decision.history], decision.allowed)
  }

  function HistoryOf(requests: map<Client, seq<real>>, client: Client): seq<real> {
    if client in requests then requests[client] else []
  }

  // ---------------------------------------------------------------- runs on the shared table

  datatype Request = Request(client: Client, at: real)

  /** The table of deques after any run of calls by any clients. */
  function TableAfter(limit: int, calls: seq<Request>): map<Client, seq<real>> {
    if calls == [] then map[]
    else
      var last := calls[|calls| - 1];
      Call(limit, TableAfter(limit, calls[..|calls| - 1]), last.client, last.at).0
  }

  /** The times of the client's calls that the shared table allowed, in the order of the calls. */
  function GrantedTo(limit: int, calls: seq<Request>, client: Client): seq<real> {
    if calls == [] then []
    else
      var front, last := calls[..|calls| - 1], calls[|calls| - 1];
      GrantedTo(limit, front, client) +
      (if last.client == client && Call(limit, TableAfter(limit, front), client, last.at).1 then [last.at] else [])
  }

  function TimesOf(calls: seq<Request>, client: Client): seq<real> {
    if calls == [] then []
    else
      var last := calls[|calls| - 1];
      TimesOf(calls[..|calls| - 1], client) + (if last.client == client then [last.at] else [])
  }

  /** One client's deque and the times of its allowed calls, if it were alone. */
  datatype Track = Track(history: seq<real>, granted: seq<real>)

  function TrackAfter(limit: int, times: seq<real>): Track {
    if times == [] then Track([], [])
    else
      NextTrack(limit, TrackAfter(limit, times[..|times| - 1]), times[|times| - 1])
  }

  function NextTrack(limit: int, track: Track, current: real): Track {
    var decision := Decide(limit, track.history, current);
    Track(decision.history, track.granted + (if decision.allowed then [current] else []))
  }

  /** Clients do not influence each other: on the shared table a client has the deque and gets the
      answers that its own calls alone would produce. */
  lemma {:induction false} ClientsAreIndependent(limit: int, calls: seq<Request>, client: Client)
    ensures var track := TrackAfter(limit, TimesOf(calls, client));
            && HistoryOf(TableAfter(limit, calls), client) == track.history
            && GrantedTo(limit, calls, client) == track.granted
  {
    hide Decide;
    if calls != [] {
      var front, last := calls[..|calls| - 1], calls[|calls| - 1];
      ClientsAreIndependent(limit, front, client);
      if last.client == client {
        assert TimesOf(calls, client) == TimesOf(front, client) + [last.at];
        TrackAppend(limit, TimesOf(front, client), last.at);
      } else {
        assert TimesOf(calls, client) == TimesOf(front, client);
      }
    }
  }

  lemma TrackAppend(limit: int, times: seq<real>, current: real)
    ensures TrackAfter(limit, times + [current]) == NextTrack(limit, TrackAfter(limit, times), current)
  {
    assert (times + [current])[..|times|] == times;
  }

  ghost predicate InOrder(times: seq<real>) {
    forall i, j | 0 <= i < j < |times| :: times[i] <= times[j]
  }

  /** The positions of the calls inside the half-open window that ends at the given instant. */
  ghost function InWindow(times: seq<real>, end: real): set<int> {
    set i | 0 <= i < |times| && end - 60.0 < times[i] <= end
  }

  function NonNegative(limit: int): nat {
    if limit < 0 then 0 else limit
  }

  // ---------------------------------------------------------------- a guard that keeps the bound

  predicate IsSuffix(part: seq<real>, whole: seq<real>) {
    |part| <= |whole| && part == whole[|whole| - |part|..]
  }

  lemma SuffixOfSuffix(a: seq<real>, b: seq<real>, c: seq<real>)
    requires IsSuffix(a, b) && IsSuffix(b, c)
    ensures IsSuffix(a, c)
  {
  }

  lemma SuffixGrows(part: seq<real>, whole: seq<real>, x: real)
    requires IsSuffix(part, whole)
    ensures IsSuffix(part + [x], whole + [x])
  {
    assert (whole + [x])[|whole| - |part|..] == whole[|whole| - |part|..] + [x];
  }

  lemma SuffixAt(part: seq<real>, whole: seq<real>, i: int)
    requires IsSuffix(part, whole) && 0 <= i < |part|
    ensures part[i] == whole[|whole| - |part| + i]
  {
  }

  /** What popping does: it drops expired entries from the front and stops at one that is not. */
  lemma {:induction false} TrimmedDropsExpired(history: seq<real>, current: real)
    ensures var kept := Trimmed(history, current);
            && IsSuffix(kept, history)
            && (forall i | 0 <= i < |history| - |kept| :: history[i] <= current - WINDOW)
            && (kept != [] ==> kept[0] > current - WINDOW)
  {
    if history != [] && history[0] <= current - WINDOW {
      TrimmedDropsExpired(history[1..], current);
      assert IsSuffix(history[1..], history);
      SuffixOfSuffix(Trimmed(history, current), history[1..], history);
    }
  }

  /** The deque is the youngest part of the granted calls. */
  ghost predicate YoungestPart(limit: int, track: Track) {
    IsSuffix(track.history, track.granted) && |track.history| <= NonNegative(limit)
  }

  /** Granted calls that are `limit` positions apart are a whole window apart. */
  ghost predicate Spaced(limit: int, granted: seq<real>) {
    forall i, j | 0 <= i && i + NonNegative(limit) <= j < |granted| :: granted[i] <= granted[j] - WINDOW
  }

  /** Every grant that the deque no longer holds has left the window that ends now. */
  ghost predicate OlderHaveLeft(track: Track, now: real)
    requires |track.history| <= |track.granted|
  {
    forall i | 0 <= i < |track.granted| - |track.history| :: track.granted[i] <= now - WINDOW
  }

  /** The call is not granted while a grant that was already popped is still inside the window that ends
      at the call. */
  ghost predicate NotLate(limit: int, track: Track, current: real) {
    var kept := Trimmed(track.history, current);
    |kept| < limit ==> |kept| <= |track.granted| && OlderHaveLeft(Track(kept, track.granted), current)
  }

  ghost predicate NeverLate(limit: int, times: seq<real>) {
    forall k | 0 <= k < |times| :: NotLate(limit, TrackAfter(limit, times[..k]), times[k])
  }

  lemma TrimmedIsYoungest(limit: int, track: Track, current: real)
    requires YoungestPart(limit, track)
    ensures YoungestPart(limit, Track(Trimmed(track.history, current), track.granted))
  {
    hide IsSuffix;
    TrimmedDropsExpired(track.history, current);
    SuffixOfSuffix(Trimmed(track.history, current), track.history, track.granted);
    SuffixIsShorter(Trimmed(track.history, current), track.history);
  }

  lemma SuffixIsShorter(part: seq<real>, whole: seq<real>)
    requires IsSuffix(part, whole)
    ensures |part| <= |whole|
  {
  }

  lemma GrantIsYoungest(limit: int, track: Track, current: real)
    requires YoungestPart(limit, track)
    ensures YoungestPart(limit, NextTrack(limit, track, current))
  {
    hide IsSuffix;
    hide Trimmed;
    TrimmedIsYoungest(limit, track, current);
    SuffixGrows(Trimmed(track.history, current), track.granted, current);
    assert track.granted + [] == track.granted;
  }

  lemma {:induction false} DequeIsYoungest(limit: int, times: seq<real>)
    ensures YoungestPart(limit, TrackAfter(limit, times))
  {
    hide YoungestPart;
    if times == [] {
      NothingIsYoungest(limit);
    } else {
      var n := |times| - 1;
      DequeIsYoungest(limit, times[..n]);
      GrantIsYoungest(limit, TrackAfter(limit, times[..n]), times[n]);
    }
  }

  lemma NothingIsYoungest(limit: int)
    ensures YoungestPart(limit, Track([], []))
  {
  }

  lemma GrantIsSpaced(limit: int, track: Track, current: real)
    requires YoungestPart(limit, track) && Spaced(limit, track.granted) && NotLate(limit, track, current)
    ensures Spaced(limit, NextTrack(limit, track, current).granted)
  {
    hide Trimmed;
    hide IsSuffix;
    TrimmedIsYoungest(limit, track, current);
    if |Trimmed(track.history, current)| < limit {
      SpacedGrows(limit, track.granted, |Trimmed(track.history, current)|, current);
    } else {
      assert track.granted + [] == track.granted;
    }
  }

  lemma SpacedGrows(limit: nat, granted: seq<real>, held: nat, current: real)
    requires Spaced(limit, granted) && held < limit && held <= |granted|
    requires forall i | 0 <= i < |granted| - held :: granted[i] <= current - WINDOW
    ensures Spaced(limit, granted + [current])
  {
    var longer := granted + [current];
    forall i, j | 0 <= i && i + NonNegative(limit) <= j < |longer|
      ensures longer[i] <= longer[j] - WINDOW
    {
      assert longer[i] == granted[i];
      assert j < |granted| ==> longer[j] == granted[j];
    }
  }

  lemma {:induction false} GuardSpacesGrants(limit: int, times: seq<real>)
    requires NeverLate(limit, times)
    ensures Spaced(limit, TrackAfter(limit, times).granted)
  {
    hide YoungestPart;
    hide Spaced;
    hide NotLate;
    hide NextTrack;
    if times == [] {
      NothingIsSpaced(limit);
    } else {
      var n := |times| - 1;
      forall k | 0 <= k < n
        ensures NotLate(limit, TrackAfter(limit, times[..n][..k]), times[..n][k])
      {
        assert times[..n][..k] == times[..k];
      }
      GuardSpacesGrants(limit, times[..n]);
      DequeIsYoungest(limit, times[..n]);
      GrantIsSpaced(limit, TrackAfter(limit, times[..n]), times[n]);
    }
  }

  lemma NothingIsSpaced(limit: int)
    ensures Spaced(limit, [])
  {
  }

  lemma SpacedInside(limit: int, granted: seq<real>, end: real, i: int, j: int)
    requires Spaced(limit, granted) && i in InWindow(granted, end) && j in InWindow(granted, end)
    ensures j < i + NonNegative(limit)
  {
  }

  lemma SpacedFitsWindow(limit: int, granted: seq<real>, end: real)
    requires Spaced(limit, granted)
    ensures |InWindow(granted, end)| <= NonNegative(limit)
  {
    var inside := InWindow(granted, end);
    if inside != {} {
      var first := Least(inside);
      forall i | i in inside
        ensures i < first + NonNegative(limit)
      {
        SpacedInside(limit, granted, end, first, i);
      }
      SubsetSize(inside, Range(first, NonNegative(limit)));
    }
  }

  /** The bound holds for calls in any order, as long as no call of the client is granted while a grant
      that was already popped is newer than a window before the call. */
  lemma GuardKeepsWindow(limit: int, calls: seq<Request>, client: Client, end: real)
    requires NeverLate(limit, TimesOf(calls, client))
    ensures |InWindow(GrantedTo(limit, calls, client), end)| <= NonNegative(limit)
  {
    hide *;
    ClientsAreIndependent(limit, calls, client);
    GuardSpacesGrants(limit, TimesOf(calls, client));
    SpacedFitsWindow(limit, GrantedTo(limit, calls, client), end);
  }

  // ---------------------------------------------------------------- times in order

  /** What holds while times do not decrease: popped grants have left the window of the last call. */
  ghost predicate TrackOk(limit: int, track: Track, last: real) {
    && YoungestPart(limit, track) && OlderHaveLeft(track, last)
    && InOrder(track.granted)
    && (forall t | t in track.granted :: t <= last)
  }

  lemma TrackTrims(limit: int, track: Track, last: real, current: real)
    requires TrackOk(limit, track, last) && last <= current
    ensures TrackOk(limit, Track(Trimmed(track.history, current), track.granted), current)
  {
    hide Trimmed;
    hide IsSuffix;
    var kept := Trimmed(track.history, current);
    var n, h := |track.granted|, |track.history|;
    TrimmedIsYoungest(limit, track, current);
    TrimmedDropsExpired(track.history, current);
    SuffixIsShorter(kept, track.history);
    SuffixIsShorter(track.history, track.granted);
    forall i | 0 <= i < n - |kept|
      ensures track.granted[i] <= current - WINDOW
    {
      if i >= n - h {
        SuffixAt(track.history, track.granted, i - (n - h));
      }
    }
  }

  lemma OrderGrows(granted: seq<real>, current: real)
    requires InOrder(granted) && forall t | t in granted :: t <= current
    ensures InOrder(granted + [current]) && forall t | t in granted + [current] :: t <= current
  {
    var longer := granted + [current];
    forall i, j | 0 <= i < j < |longer|
      ensures longer[i] <= longer[j]
    {
      assert longer[i] == granted[i] && granted[i] in granted;
      assert j < |granted| ==> longer[j] == granted[j];
    }
  }

  lemma TrackStep(limit: int, track: Track, last: real, current: real)
    requires TrackOk(limit, track, last) && last <= current
    ensures TrackOk(limit, NextTrack(limit, track, current), current) && NotLate(limit, track, current)
  {
    hide Trimmed;
    hide IsSuffix;
    hide InOrder;
    var kept := Trimmed(track.history, current);
    TrackTrims(limit, track, last, current);
    GrantIsYoungest(limit, track, current);
    SuffixIsShorter(kept, track.granted);
    OrderGrows(track.granted, current);
    assert track.granted + [] == track.granted;
  }

  lemma {:induction false} TrackHolds(limit: int, times: seq<real>)
    requires InOrder(times)
    ensures times == [] ==> TrackAfter(limit, times) == Track([], [])
    ensures times != [] ==> TrackOk(limit, TrackAfter(limit, times), times[|times| - 1])
  {
    hide TrackOk;
    hide NextTrack;
    hide NotLate;
    if times != [] {
      var front, current := times[..|times| - 1], times[|times| - 1];
      TrackHolds(limit, front);
      var last := if front == [] then current else front[|front| - 1];
      NothingIsOk(limit, last);
      TrackStep(limit, TrackAfter(limit, front), last, current);
    }
  }

  lemma NothingIsOk(limit: int, last: real)
    ensures TrackOk(limit, Track([], []), last)
  {
  }

  lemma OrderedIsNeverLate(limit: int, times: seq<real>)
    requires InOrder(times)
    ensures NeverLate(limit, times)
  {
    hide TrackOk;
    hide NextTrack;
    hide NotLate;
    forall k | 0 <= k < |times|
      ensures NotLate(limit, TrackAfter(limit, times[..k]), times[k])
    {
      TrackHolds(limit, times[..k]);
      var last := if k == 0 then times[0] else times[k - 1];
      NothingIsOk(limit, last);
      TrackStep(limit, TrackAfter(limit, times[..k]), last, times[k]);
    }
  }

  /** Over any interleaved run of calls in which the client's own times do not decrease, no 60-second
      window, wherever it ends, contains more than the limit of the client's allowed calls. */
  lemma WindowNeverExceedsLimit(limit: int, calls: seq<Request>, client: Client, end: real)
    requires InOrder(TimesOf(calls, client))
    ensures |InWindow(GrantedTo(limit, calls, client), end)| <= NonNegative(limit)
  {
    hide *;
    OrderedIsNeverLate(limit, TimesOf(calls, client));
    GuardKeepsWindow(limit, calls, client, end);
  }

  /** A call is refused exactly when the window that ends at it already holds the limit, and it
      never holds more. */
  lemma RefusedExactlyWhenWindowFull(limit: nat, calls: seq<Request>, client: Client, current: real)
    requires InOrder(TimesOf(calls, client) + [current])
    ensures var inside := |InWindow(GrantedTo(limit, calls, client), current)|;
            inside <= limit && (Call(limit, TableAfter(limit, calls), client, current).1 <==> inside < limit)
  {
    hide TableAfter;
    hide GrantedTo;
    hide TrackAfter;
    hide TrackOk;
    hide InWindow;
    var times := TimesOf(calls, client);
    var all := times + [current];
    forall i, j | 0 <= i < j < |times|
      ensures times[i] <= times[j]
    {
      assert all[i] <= all[j];
    }
    ClientsAreIndependent(limit, calls, client);
    var track := TrackAfter(limit, times);
    TrackHolds(limit, times);
    NothingIsOk(limit, current);
    var last := if times == [] then current else times[|times| - 1];
    assert times != [] ==> all[|times| - 1] <= all[|times|];
    TrackTrims(limit, track, last, current);
    TrimmedDropsExpired(track.history, current);
    KeptIsWindow(limit, Track(Trimmed(track.history, current), track.granted), current);
    WindowNeverExceedsLimit(limit, calls, client, current);
  }

  /** After trimming, the deque is exactly the window that ends at the call. */
  lemma KeptIsWindow(limit: int, track: Track, current: real)
    requires TrackOk(limit, track, current)
    requires track.history != [] ==> track.history[0] > current - WINDOW
    ensures |InWindow(track.granted, current)| == |track.history|
  {
    var n, h := |track.granted|, |track.history|;
    forall i | 0 <= i < n
      ensures i in InWindow(track.granted, current) <==> n - h <= i
    {
      assert track.granted[i] in track.granted;
      if n - h <= i {
        assert track.granted[n - h] == track.history[0];
        assert track.granted[n - h] <= track.granted[i];
      }
    }
    assert InWindow(track.granted, current) == Range(n - h, h);
  }

  // ---------------------------------------------------------------- times out of order

  lemma OneSlotStep(track: Track, current: real)
    requires YoungestPart(1, track) && Spaced(1, track.granted) && (track.granted != [] ==> track.history != [])
    ensures NotLate(1, track, current)
    ensures var next := NextTrack(1, track, current); next.granted != [] ==> next.history != []
  {
    hide IsSuffix;
    hide Trimmed;
    hide Spaced;
    var n, kept := |track.granted|, Trimmed(track.history, current);
    TrimmedDropsExpired(track.history, current);
    SuffixIsShorter(track.history, track.granted);
    SuffixIsShorter(kept, track.history);
    if n > 0 && kept == [] {
      SuffixAt(track.history, track.granted, 0);
      assert track.granted[n - 1] <= current - WINDOW;
      LastIsLatest(track.granted, current - WINDOW);
    }
  }

  lemma LastIsLatest(granted: seq<real>, bound: real)
    requires Spaced(1, granted) && granted != [] && granted[|granted| - 1] <= bound
    ensures forall i | 0 <= i < |granted| :: granted[i] <= bound
  {
    var n := |granted|;
    forall i | 0 <= i < n - 1
      ensures granted[i] <= bound
    {
      assert granted[i] <= granted[n - 1] - WINDOW;
    }
  }

  /** With one slot a popped grant makes room for the very call that pops it. */
  lemma {:induction false} OneSlotIsNeverLate(times: seq<real>)
    ensures NeverLate(1, times)
    ensures var track := TrackAfter(1, times); track.granted != [] ==> track.history != []
  {
    hide NextTrack;
    hide NotLate;
    hide NeverLate;
    hide YoungestPart;
    hide Spaced;
    if times == [] {
      NothingIsLate(1);
    } else {
      var n := |times| - 1;
      OneSlotIsNeverLate(times[..n]);
      DequeIsYoungest(1, times[..n]);
      GuardSpacesGrants(1, times[..n]);
      OneSlotStep(TrackAfter(1, times[..n]), times[n]);
      NeverLateGrows(1, times);
    }
  }

  lemma NeverLateGrows(limit: int, times: seq<real>)
    requires times != []
    requires var n := |times| - 1; NeverLate(limit, times[..n]) && NotLate(limit, TrackAfter(limit, times[..n]), times[n])
    ensures NeverLate(limit, times)
  {
    hide NotLate;
    hide TrackAfter;
    var n := |times| - 1;
    forall k | 0 <= k < n
      ensures NotLate(limit, TrackAfter(limit, times[..k]), times[k])
    {
      assert times[..n][..k] == times[..k] && times[..n][k] == times[k];
    }
  }

  lemma NothingIsLate(limit: int)
    ensures NeverLate(limit, [])
  {
  }

  lemma NoSlotIsNeverLate(limit: int, times: seq<real>)
    requires limit <= 0
    ensures NeverLate(limit, times)
  {
  }

  function Repeated(time: real, n: nat): seq<real> {
    if n == 0 then [] else Repeated(time, n - 1) + [time]
  }

  lemma {:induction false} RepeatedIs(time: real, n: nat)
    ensures |Repeated(time, n)| == n && forall i | 0 <= i < n :: Repeated(time, n)[i] == time
  {
    if n > 0 {
      RepeatedIs(time, n - 1);
    }
  }

  lemma GrantedWhileYoung(limit: nat, history: seq<real>, granted: seq<real>, current: real)
    requires |history| < limit && (history != [] ==> history[0] > current - WINDOW)
    ensures NextTrack(limit, Track(history, granted), current) == Track(history + [current], granted + [current])
  {
  }

  lemma {:induction false} BurstIsGranted(limit: nat, n: nat)
    requires n <= limit
    ensures TrackAfter(limit, Repeated(1.0, n)) == Track(Repeated(1.0, n), Repeated(1.0, n))
  {
    hide NextTrack;
    if n > 0 {
      BurstIsGranted(limit, n - 1);
      RepeatedIs(1.0, n - 1);
      TrackAppend(limit, Repeated(1.0, n - 1), 1.0);
      GrantedWhileYoung(limit, Repeated(1.0, n - 1), Repeated(1.0, n - 1), 1.0);
    }
  }

  lemma {:induction false} AllExpired(history: seq<real>, current: real)
    requires forall i | 0 <= i < |history| :: history[i] <= current - WINDOW
    ensures Trimmed(history, current) == []
    decreases |history|
  {
    if history != [] {
      AllExpired(history[1..], current);
    }
  }

  /** Calls that fill the window, one that empties the deque a minute later, and one whose clock was read
      a little before that and that was then overtaken. */
  function LateRun(limit: nat, delay: real): seq<real> {
    Repeated(1.0, limit) + [61.0] + [61.0 - delay]
  }

  lemma EmptiedByNext(limit: nat, burst: seq<real>)
    requires limit >= 1 && forall i | 0 <= i < |burst| :: burst[i] == 1.0
    ensures NextTrack(limit, Track(burst, burst), 61.0) == Track([61.0], burst + [61.0])
  {
    AllExpired(burst, 61.0);
    assert [] + [61.0] == [61.0];
  }

  lemma LateRunIsGranted(limit: nat, delay: real)
    requires limit >= 2 && 0.0 < delay < WINDOW
    ensures TrackAfter(limit, LateRun(limit, delay)).granted == LateRun(limit, delay)
  {
    hide NextTrack;
    hide Repeated;
    hide TrackAfter;
    var burst := Repeated(1.0, limit);
    RepeatedIs(1.0, limit);
    BurstIsGranted(limit, limit);
    TrackAppend(limit, burst, 61.0);
    EmptiedByNext(limit, burst);
    TrackAppend(limit, burst + [61.0], 61.0 - delay);
    GrantedWhileYoung(limit, [61.0], burst + [61.0], 61.0 - delay);
  }

  lemma LateRunOverfillsWindow(limit: nat, delay: real)
    requires 0.0 < delay < WINDOW
    ensures |InWindow(LateRun(limit, delay), 61.0 - delay)| == limit + 1
  {
    hide Repeated;
    RepeatedIs(1.0, limit);
    var run, end := LateRun(limit, delay), 61.0 - delay;
    assert run[limit] == 61.0 && run[limit + 1] == end;
    assert forall i | 0 <= i < limit :: run[i] == Repeated(1.0, limit)[i];
    forall i
      ensures i in InWindow(run, end) <==> i in Range(0, limit) + {limit + 1}
    {
    }
    assert InWindow(run, end) == Range(0, limit) + {limit + 1};
  }

  function CallsAt(client: Client, times: seq<real>): seq<Request> {
    seq(|times|, i requires 0 <= i < |times| => Request(client, times[i]))
  }

  lemma {:induction false} CallsHaveTimes(client: Client, times: seq<real>)
    ensures TimesOf(CallsAt(client, times), client) == times
  {
    if times != [] {
      var n := |times| - 1;
      CallsHaveTimes(client, times[..n]);
      assert CallsAt(client, times)[..n] == CallsAt(client, times[..n]);
    }
  }

  /** The clock is read before the lock is taken, so a thread that is overtaken calls with an earlier time.
      For every limit above one and however short the delay, some run of one client then has a window with
      one allowed call too many. */
  lemma LateClockReadBreaksWindow(limit: nat, delay: real, client: Client)
    requires limit >= 2 && 0.0 < delay < WINDOW
    ensures |InWindow(GrantedTo(limit, CallsAt(client, LateRun(limit, delay)), client), 61.0 - delay)| == limit + 1
  {
    hide *;
    CallsHaveTimes(client, LateRun(limit, delay));
    ClientsAreIndependent(limit, CallsAt(client, LateRun(limit, delay)), client);
    LateRunIsGranted(limit, delay);
    LateRunOverfillsWindow(limit, delay);
  }

  ghost predicate BoundHoldsInEveryOrder(limit: int) {
    forall calls, client, end :: |InWindow(GrantedTo(limit, calls, client), end)| <= NonNegative(limit)
  }

  /** The bound holds whatever the order of the times exactly if the limit is at most one. */
  lemma BoundHoldsInEveryOrderIff(limit: int)
    ensures BoundHoldsInEveryOrder(limit) <==> limit <= 1
  {
    hide GrantedTo;
    hide InWindow;
    hide NeverLate;
    if limit <= 1 {
      forall calls, client, end
        ensures |InWindow(GrantedTo(limit, calls, client), end)| <= NonNegative(limit)
      {
        if limit == 1 {
          OneSlotIsNeverLate(TimesOf(calls, client));
        } else {
          NoSlotIsNeverLate(limit, TimesOf(calls, client));
        }
        GuardKeepsWindow(limit, calls, client, end);
      }
    } else {
      LateClockReadBreaksWindow(limit, 1.0, Client(""));
    }
  }
}
