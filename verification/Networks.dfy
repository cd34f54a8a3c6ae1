/** The membership index over a whitelist: per family, the covered addresses as merged intervals
    that are searched by bisection (src/f2bguard/networks.py). */
module Networks {
  import opened Wire

  datatype Interval = Interval(lo: int, hi: int) {
    predicate Has(x: int) {
      lo <= x <= hi
    }

    /** The order of Python tuples. */
    predicate Before(other: Interval) {
      lo < other.lo || (lo == other.lo && hi <= other.hi)
    }
  }

  ghost predicate Covers(ivs: seq<Interval>, x: int) {
    exists iv :: iv in ivs && iv.Has(x)
  }

  ghost predicate SameCover(a: seq<Interval>, b: seq<Interval>) {
    forall x :: Covers(a, x) <==> Covers(b, x)
  }

  predicate Proper(ivs: seq<Interval>) {
    forall iv | iv in ivs :: iv.lo <= iv.hi
  }

  /** Non-empty intervals in strictly rising order with at least one uncovered address between
      neighbours. */
  predicate Canonical(ivs: seq<Interval>) {
    && (forall i | 0 <= i < |ivs| :: ivs[i].lo <= ivs[i].hi)
    && (forall i, j | 0 <= i < j < |ivs| :: ivs[i].hi + 1 < ivs[j].lo)
  }

  // ---------------------------------------------------------------- sorting

  predicate SortedRanges(s: seq<Interval>) {
    forall i, j | 0 <= i < j < |s| :: s[i].Before(s[j])
  }

  lemma SortedCons(x: Interval, s: seq<Interval>)
    requires SortedRanges(s) && (s != [] ==> x.Before(s[0]))
    ensures SortedRanges([x] + s)
  {
    var r := [x] + s;
    forall i, j | 0 <= i < j < |r|
      ensures r[i].Before(r[j])
    {
      if i == 0 {
        assert r[j] == s[j - 1] && s[j - 1] in s;
        assert j > 1 ==> s[0].Before(s[j - 1]);
      } else {
        assert r[i] == s[i - 1] && r[j] == s[j - 1];
      }
    }
  }

  function Insert(s: seq<Interval>, iv: Interval): (r: seq<Interval>)
    requires SortedRanges(s)
    ensures SortedRanges(r) && multiset(r) == multiset(s) + multiset{iv}
  {
    if s == [] || iv.Before(s[0]) then
      SortedCons(iv, s);
      [iv] + s
    else
      var rest := Insert(s[1..], iv);
      assert s == [s[0]] + s[1..];
      assert rest[0] in multiset(rest);
      SortedCons(s[0], rest);
      [s[0]] + rest
  }

  /** The library sort of a list of pairs. */
  function Sorted(s: seq<Interval>): (r: seq<Interval>)
    ensures SortedRanges(r) && multiset(r) == multiset(s)
  {
    if s == [] then []
    else
      assert s == s[..|s| - 1] + [s[|s| - 1]];
      Insert(Sorted(s[..|s| - 1]), s[|s| - 1])
  }

  lemma PermutationCovers(a: seq<Interval>, b: seq<Interval>)
    requires multiset(a) == multiset(b)
    ensures SameCover(a, b) && (Proper(a) ==> Proper(b))
  {
    assert forall iv :: iv in a <==> iv in multiset(a);
    assert forall iv :: iv in b <==> iv in multiset(b);
  }

  // ---------------------------------------------------------------- merging

  datatype Intervals = Intervals(starts: seq<int>, ends: seq<int>) {

    predicate WellFormed() {
      |starts| == |ends|
    }

    function Pairs(): (r: seq<Interval>)
      requires WellFormed()
      ensures |r| == |starts|
    {
      seq(|starts|, i requires 0 <= i < |starts| => Interval(starts[i], ends[i]))
    }

    function Contains(value: int): (r: bool)
      requires WellFormed() && Canonical(Pairs())
      ensures r <==> Covers(Pairs(), value)
    {
      assert forall i, j | 0 <= i < j < |starts| :: starts[i] <= starts[j] by {
        assert forall i | 0 <= i < |starts| :: Pairs()[i] == Interval(starts[i], ends[i]);
      }
      var position := BisectRight(starts, value, 0, |starts|) - 1;
      BisectFindsCover(this, value, position);
      position >= 0 && value <= ends[position]
    }
  }

  /** The library bisection: the number of leading entries that are at most x. */
  function BisectRight(s: seq<int>, x: int, lo: nat, hi: nat): (r: nat)
    requires lo <= hi <= |s|
    requires forall i, j | 0 <= i < j < |s| :: s[i] <= s[j]
    requires forall i | 0 <= i < lo :: s[i] <= x
    requires forall i | hi <= i < |s| :: x < s[i]
    ensures r <= |s|
    ensures forall i | 0 <= i < r :: s[i] <= x
    ensures forall i | r <= i < |s| :: x < s[i]
    decreases hi - lo
  {
    if lo == hi then lo
    else
      var mid := (lo + hi) / 2;
      if x < s[mid] then BisectRight(s, x, lo, mid) else BisectRight(s, x, mid + 1, hi)
  }

  lemma BisectFindsCover(ivs: Intervals, x: int, position: int)
    requires ivs.WellFormed() && Canonical(ivs.Pairs())
    requires -1 <= position < |ivs.starts|
    requires forall i | 0 <= i <= position :: ivs.starts[i] <= x
    requires forall i | position < i < |ivs.starts| :: x < ivs.starts[i]
    ensures Covers(ivs.Pairs(), x) <==> position >= 0 && x <= ivs.ends[position]
  {
    var p := ivs.Pairs();
    assert forall i | 0 <= i < |p| :: p[i] == Interval(ivs.starts[i], ivs.ends[i]);
    if position >= 0 && x <= ivs.ends[position] {
      assert p[position].Has(x);
    }
    if Covers(p, x) {
      var iv :| iv in p && iv.Has(x);
      var k :| 0 <= k < |p| && p[k] == iv;
      assert k <= position;
      assert k < position ==> p[k].hi + 1 < p[position].lo;
    }
  }

  lemma CoversAppend(ivs: seq<Interval>, iv: Interval)
    ensures forall x :: Covers(ivs + [iv], x) <==> Covers(ivs, x) || iv.Has(x)
  {
    forall x
      ensures Covers(ivs + [iv], x) <==> Covers(ivs, x) || iv.Has(x)
    {
      if Covers(ivs, x) {
        var k :| k in ivs && k.Has(x);
        assert k in ivs + [iv];
      }
      if iv.Has(x) {
        assert iv in ivs + [iv];
      }
    }
  }

  lemma SameCoverIsEquivalence(a: seq<Interval>, b: seq<Interval>, c: seq<Interval>)
    ensures SameCover(a, a)
    ensures SameCover(a, b) ==> SameCover(b, a)
    ensures SameCover(a, b) && SameCover(c, b) ==> SameCover(a, c)
  {
  }

  lemma AppendsApart(merged: seq<Interval>, next: Interval, done: seq<Interval>)
    requires Canonical(merged) && SameCover(merged, done) && next.lo <= next.hi
    requires merged == [] || next.lo > merged[|merged| - 1].hi + 1
    ensures Canonical(merged + [next]) && SameCover(merged + [next], done + [next])
  {
    CoversAppend(merged, next);
    CoversAppend(done, next);
    var m := merged + [next];
    forall i, j | 0 <= i < j < |m|
      ensures m[i].hi + 1 < m[j].lo
    {
      if j == |merged| && i < |merged| - 1 {
        assert merged[i].hi + 1 < merged[|merged| - 1].lo;
      }
    }
  }

  lemma JoinsLast(merged: seq<Interval>, next: Interval, done: seq<Interval>)
    requires Canonical(merged) && SameCover(merged, done) && next.lo <= next.hi && merged != []
    requires merged[|merged| - 1].lo <= next.lo <= merged[|merged| - 1].hi + 1
    ensures var last := merged[|merged| - 1];
            var hi := if next.hi > last.hi then next.hi else last.hi;
            var m := merged[|merged| - 1 := last.(hi := hi)];
            Canonical(m) && SameCover(m, done + [next])
  {
    CoversAppend(done, next);
    var last := merged[|merged| - 1];
    var rest := merged[..|merged| - 1];
    var grown := last.(hi := if next.hi > last.hi then next.hi else last.hi);
    assert merged == rest + [last];
    assert merged[|merged| - 1 := grown] == rest + [grown];
    CoversAppend(rest, last);
    CoversAppend(rest, grown);
  }

  /** What merging a list of ranges promises. */
  ghost predicate IsMergeOf(r: Intervals, ranges: seq<Interval>) {
    r.WellFormed() && Canonical(r.Pairs()) && SameCover(r.Pairs(), ranges)
  }

  function FromPairs(merged: seq<Interval>): (r: Intervals)
    ensures r.WellFormed() && r.Pairs() == merged
  {
    var r := Intervals(
      seq(|merged|, i requires 0 <= i < |merged| => merged[i].lo),
      seq(|merged|, i requires 0 <= i < |merged| => merged[i].hi));
    assert r.Pairs() == merged;
    r
  }

  method Merge(ranges: seq<Interval>) returns (r: Intervals)
    requires Proper(ranges)
    ensures IsMergeOf(r, ranges)
  {
    hide SameCover;
    hide Sorted;
    if ranges == [] {
      r := Intervals([], []);
      SameCoverIsEquivalence(r.Pairs(), ranges, ranges);
      return;
    }
    var sorted := Sorted(ranges);
    PermutationCovers(ranges, sorted);
    var merged: seq<Interval> := [];
    SameCoverIsEquivalence(merged, sorted[..0], sorted[..0]);
    for k := 0 to |sorted|
      invariant Canonical(merged)
      invariant k > 0 ==> merged != [] && merged[|merged| - 1].lo <= sorted[k - 1].lo
      invariant k == 0 ==> merged == []
      invariant SameCover(merged, sorted[..k])
    {
      var next := sorted[k];
      assert next in sorted;
      ghost var done := sorted[..k];
      assert sorted[..k + 1] == done + [next];
      assert k > 0 ==> sorted[k - 1].Before(sorted[k]);
      if merged == [] || next.lo > merged[|merged| - 1].hi + 1 {
        AppendsApart(merged, next, done);
        merged := merged + [next];
      } else {
        JoinsLast(merged, next, done);
        ghost var last := merged[|merged| - 1];
        assert merged[|merged| - 1 := last] == merged && last.(hi := last.hi) == last;
        if next.hi > merged[|merged| - 1].hi {
          merged := merged[|merged| - 1 := merged[|merged| - 1].(hi := next.hi)];
        }
      }
    }
    assert sorted[..|sorted|] == sorted;
    r := FromPairs(merged);
    SameCoverIsEquivalence(merged, sorted, ranges);
  }

  // ---------------------------------------------------------------- canonical form

  lemma CanonicalStart(a: seq<Interval>, x: int)
    requires Canonical(a) && a != [] && Covers(a, x)
    ensures a[0].lo <= x
    ensures x > a[0].hi ==> Covers(a[1..], x)
    ensures x == a[0].hi + 1 ==> false
  {
    var iv :| iv in a && iv.Has(x);
    var k :| 0 <= k < |a| && a[k] == iv;
    if k > 0 {
      assert a[0].hi + 1 < a[k].lo;
      assert a[1..][k - 1] == iv;
    }
  }

  lemma CanonicalTail(a: seq<Interval>)
    requires Canonical(a) && a != []
    ensures Canonical(a[1..])
    ensures forall x :: Covers(a[1..], x) <==> Covers(a, x) && x > a[0].hi
  {
    forall x
      ensures Covers(a[1..], x) <==> Covers(a, x) && x > a[0].hi
    {
      if Covers(a[1..], x) {
        var iv :| iv in a[1..] && iv.Has(x);
        var k :| 0 <= k < |a[1..]| && a[1..][k] == iv;
        assert a[k + 1] == iv;
        assert a[0].hi + 1 < a[k + 1].lo;
      }
      if Covers(a, x) && x > a[0].hi {
        CanonicalStart(a, x);
      }
    }
  }

  lemma CanonicalHeadBound(a: seq<Interval>, b: seq<Interval>)
    requires Canonical(a) && Canonical(b) && SameCover(a, b) && a != []
    ensures b != [] && b[0].lo <= a[0].lo
    ensures a[0].lo == b[0].lo ==> b[0].hi <= a[0].hi
  {
    assert a[0] in a && a[0].Has(a[0].lo);
    assert Covers(b, a[0].lo);
    var iv :| iv in b && iv.Has(a[0].lo);
    CanonicalStart(b, a[0].lo);
    if a[0].lo == b[0].lo && a[0].hi < b[0].hi {
      assert b[0] in b && b[0].Has(a[0].hi + 1);
      assert Covers(a, a[0].hi + 1);
      CanonicalStart(a, a[0].hi + 1);
    }
  }

  /** A canonical list is determined by the set of addresses it covers. */
  lemma {:induction false} CanonicalUnique(a: seq<Interval>, b: seq<Interval>)
    requires Canonical(a) && Canonical(b) && SameCover(a, b)
    ensures a == b
  {
    if a == [] {
      if b != [] {
        CanonicalHeadBound(b, a);
      }
    } else {
      CanonicalHeadBound(a, b);
      CanonicalHeadBound(b, a);
      CanonicalTail(a);
      CanonicalTail(b);
      CanonicalUnique(a[1..], b[1..]);
      assert a == [a[0]] + a[1..] && b == [b[0]] + b[1..];
    }
  }

  /** The merge of a list depends only on the addresses covered, not on order, overlap or
      repetition. */
  lemma MergeDependsOnCoverOnly(r: Intervals, a: seq<Interval>, s: Intervals, b: seq<Interval>)
    requires IsMergeOf(r, a) && IsMergeOf(s, b)
    ensures r == s <==> SameCover(a, b)
  {
    if SameCover(a, b) {
      CanonicalUnique(r.Pairs(), s.Pairs());
      forall i | 0 <= i < |r.starts|
        ensures r.starts[i] == s.starts[i] && r.ends[i] == s.ends[i]
      {
        assert r.Pairs()[i] == s.Pairs()[i];
      }
    }
  }

  /** Starts that pairwise need different intervals need as many intervals as there are starts. */
  lemma {:induction false} SeparatedStartsCount(starts: seq<int>, ivs: seq<Interval>)
    requires forall i | 0 <= i < |starts| :: Covers(ivs, starts[i])
    requires forall i, j, iv | 0 <= i < j < |starts| && iv in ivs :: !(iv.Has(starts[i]) && iv.Has(starts[j]))
    ensures |starts| <= |ivs|
  {
    if starts != [] {
      var iv :| iv in ivs && iv.Has(starts[0]);
      var k :| 0 <= k < |ivs| && ivs[k] == iv;
      var rest := ivs[..k] + ivs[k + 1..];
      forall i | 0 <= i < |starts[1..]|
        ensures Covers(rest, starts[1..][i])
      {
        var other :| other in ivs && other.Has(starts[i + 1]);
        var m :| 0 <= m < |ivs| && ivs[m] == other;
        assert m != k;
        assert other == rest[if m < k then m else m - 1];
      }
      forall i, j, other | 0 <= i < j < |starts[1..]| && other in rest
        ensures !(other.Has(starts[1..][i]) && other.Has(starts[1..][j]))
      {
        assert other in ivs;
        assert starts[1..][i] == starts[i + 1] && starts[1..][j] == starts[j + 1];
      }
      SeparatedStartsCount(starts[1..], rest);
    }
  }

  lemma GapIsUncovered(canonical: seq<Interval>, i: nat)
    requires Canonical(canonical) && i < |canonical|
    ensures !Covers(canonical, canonical[i].hi + 1)
  {
    var gap := canonical[i].hi + 1;
    forall c | c in canonical
      ensures !c.Has(gap)
    {
      var k :| 0 <= k < |canonical| && canonical[k] == c;
      if k < i {
        assert canonical[k].hi + 1 < canonical[i].lo;
      } else if i < k {
        assert canonical[i].hi + 1 < canonical[k].lo;
      }
    }
  }

  /** No list of intervals that covers the same addresses is shorter than a canonical one. */
  lemma CanonicalIsShortest(canonical: seq<Interval>, other: seq<Interval>)
    requires Canonical(canonical) && SameCover(canonical, other)
    ensures |canonical| <= |other|
  {
    var starts := seq(|canonical|, i requires 0 <= i < |canonical| => canonical[i].lo);
    forall i | 0 <= i < |starts|
      ensures Covers(other, starts[i])
    {
      assert canonical[i] in canonical && canonical[i].Has(starts[i]);
      assert Covers(canonical, starts[i]);
    }
    forall i, j, iv | 0 <= i < j < |starts| && iv in other
      ensures !(iv.Has(starts[i]) && iv.Has(starts[j]))
    {
      if iv.Has(starts[i]) && iv.Has(starts[j]) {
        var gap := canonical[i].hi + 1;
        assert iv.Has(gap);
        assert Covers(canonical, gap);
        GapIsUncovered(canonical, i);
      }
    }
    SeparatedStartsCount(starts, other);
  }

  // ---------------------------------------------------------------- prefixes

  function Width(family: Family): nat {
    if family == V4 then 32 else 128
  }

  function Pow2(n: nat): (r: nat)
    ensures r >= 1
  {
    if n == 0 then 1 else 2 * Pow2(n - 1)
  }

  /** An address with a prefix length; host bits may be set, as in a non-strict parse. */
  datatype Cidr = Cidr(family: Family, value: nat, prefix: nat)
  type Network = n: Cidr | n.prefix <= Width(n.family) witness Cidr(V4, 0, 0)

  function BlockSize(n: Network): (r: nat)
    ensures r >= 1
  {
    Pow2(Width(n.family) - n.prefix)
  }

  /** The network address and the broadcast address. */
  function RangeOf(n: Network): Interval {
    var first := n.value / BlockSize(n) * BlockSize(n);
    Interval(first, first + BlockSize(n) - 1)
  }

  /** The reference definition of membership: same family and the same leading prefix bits. */
  predicate SharesPrefix(n: Network, ip: Ip) {
    n.family == ip.family && ip.value / BlockSize(n) == n.value / BlockSize(n)
  }

  predicate Listed(networks: seq<Network>, ip: Ip) {
    exists n | n in networks :: SharesPrefix(n, ip)
  }

  /** The addresses with a given quotient are one aligned block. */
  lemma QuotientRange(x: nat, q: nat, size: nat, first: nat)
    requires size >= 1 && first == q * size
    ensures x / size == q <==> first <= x <= first + size - 1
  {
    var p := x / size;
    assert x == p * size + x % size;
    if p < q {
      assert (q - p) * size == first - p * size;
      MulAtLeast(q - p, size);
    } else if q < p {
      assert (p - q) * size == p * size - first;
      MulAtLeast(p - q, size);
    }
  }

  lemma MulAtLeast(a: nat, k: nat)
    requires a >= 1
    ensures a * k >= k
  {
  }

  lemma PrefixIsRange(n: Network, ip: Ip)
    requires n.family == ip.family
    ensures SharesPrefix(n, ip) <==> RangeOf(n).Has(ip.value)
  {
    hide Pow2;
    hide Width;
    var size := BlockSize(n);
    var q := n.value / size;
    var first := q * size;
    assert RangeOf(n) == Interval(first, first + size - 1);
    QuotientRange(ip.value, q, size, first);
  }

  function RangesOf(networks: seq<Network>, family: Family): (r: seq<Interval>)
    ensures Proper(r)
  {
    if networks == [] then []
    else
      var last := networks[|networks| - 1];
      var rest := RangesOf(networks[..|networks| - 1], family);
      if last.family == family then rest + [RangeOf(last)] else rest
  }

  lemma {:induction false} RangesCoverPrefixes(networks: seq<Network>, ip: Ip)
    ensures Covers(RangesOf(networks, ip.family), ip.value) <==> Listed(networks, ip)
  {
    if networks != [] {
      var last := networks[|networks| - 1];
      var front := networks[..|networks| - 1];
      RangesCoverPrefixes(front, ip);
      assert networks == front + [last];
      assert Listed(networks, ip) <==> Listed(front, ip) || SharesPrefix(last, ip);
      if last.family == ip.family {
        PrefixIsRange(last, ip);
        CoversAppend(RangesOf(front, ip.family), RangeOf(last));
      }
    }
  }

  // ---------------------------------------------------------------- the index

  datatype NetworkIndex = NetworkIndex(v4: Intervals, v6: Intervals) {

    function Of(family: Family): Intervals {
      if family == V4 then v4 else v6
    }

    ghost predicate Represents(networks: seq<Network>) {
      IsMergeOf(v4, RangesOf(networks, V4)) && IsMergeOf(v6, RangesOf(networks, V6))
    }

    predicate WellFormed() {
      && v4.WellFormed() && Canonical(v4.Pairs())
      && v6.WellFormed() && Canonical(v6.Pairs())
    }

    function Contains(ip: Ip): bool
      requires WellFormed()
    {
      Of(ip.family).Contains(ip.value)
    }

    function Exclude(ips: seq<Ip>): seq<Ip>
      requires WellFormed()
    {
      if ips == [] then []
      else if Contains(ips[0]) then Exclude(ips[1..])
      else [ips[0]] + Exclude(ips[1..])
    }

    function Length(): nat {
      |v4.starts| + |v6.starts|
    }
  }

  method BuildIndex(networks: seq<Network>) returns (index: NetworkIndex)
    ensures index.WellFormed() && index.Represents(networks)
  {
    var ranges4: seq<Interval>, ranges6: seq<Interval> := [], [];
    for k := 0 to |networks|
      invariant ranges4 == RangesOf(networks[..k], V4)
      invariant ranges6 == RangesOf(networks[..k], V6)
    {
      assert networks[..k + 1][..k] == networks[..k];
      if networks[k].family == V4 {
        ranges4 := ranges4 + [RangeOf(networks[k])];
      } else {
        ranges6 := ranges6 + [RangeOf(networks[k])];
      }
    }
    assert networks[..|networks|] == networks;
    var v4 := Merge(ranges4);
    var v6 := Merge(ranges6);
    index := NetworkIndex(v4, v6);
  }

  /** Bisection over the merged intervals answers exactly the per-network prefix search. */
  lemma IndexRefinesPrefixSearch(index: NetworkIndex, networks: seq<Network>, ip: Ip)
    requires index.WellFormed() && index.Represents(networks)
    ensures index.Contains(ip) <==> Listed(networks, ip)
  {
    RangesCoverPrefixes(networks, ip);
  }

  /** Two whitelists give the same index exactly when they list the same address values, however
      they are written. */
  lemma IndexIsCanonical(a: NetworkIndex, m: seq<Network>, b: NetworkIndex, n: seq<Network>)
    requires a.Represents(m) && b.Represents(n)
    ensures a == b <==>
      SameCover(RangesOf(m, V4), RangesOf(n, V4)) && SameCover(RangesOf(m, V6), RangesOf(n, V6))
  {
    MergeDependsOnCoverOnly(a.v4, RangesOf(m, V4), b.v4, RangesOf(n, V4));
    MergeDependsOnCoverOnly(a.v6, RangesOf(m, V6), b.v6, RangesOf(n, V6));
  }

  /** The reported length is the least number of intervals that can describe the whitelist, and is attained. */
  lemma LengthIsMinimal(index: NetworkIndex, networks: seq<Network>) returns (best4: seq<Interval>, best6: seq<Interval>)
    requires index.Represents(networks)
    ensures index.Length() == |best4| + |best6|
    ensures SameCover(RangesOf(networks, V4), best4) && SameCover(RangesOf(networks, V6), best6)
    ensures forall other | SameCover(RangesOf(networks, V4), other) :: |best4| <= |other|
    ensures forall other | SameCover(RangesOf(networks, V6), other) :: |best6| <= |other|
  {
    best4, best6 := index.v4.Pairs(), index.v6.Pairs();
    forall other | SameCover(RangesOf(networks, V4), other)
      ensures |best4| <= |other|
    {
      CanonicalIsShortest(best4, other);
    }
    forall other | SameCover(RangesOf(networks, V6), other)
      ensures |best6| <= |other|
    {
      CanonicalIsShortest(best6, other);
    }
  }

  /** r lists entries of s at strictly rising positions. */
  ghost predicate PicksInOrder(r: seq<Ip>, s: seq<Ip>, at: seq<int>) {
    && |at| == |r|
    && (forall i | 0 <= i < |at| :: 0 <= at[i] < |s| && r[i] == s[at[i]])
    && (forall i, j | 0 <= i < j < |at| :: at[i] < at[j])
  }

  lemma {:induction false} ExcludePicks(index: NetworkIndex, ips: seq<Ip>) returns (at: seq<int>)
    requires index.WellFormed()
    ensures PicksInOrder(index.Exclude(ips), ips, at)
    ensures forall k | 0 <= k < |ips| :: k in at <==> !index.Contains(ips[k])
  {
    at := [];
    if ips != [] {
      var keep := !index.Contains(ips[0]);
      var rest := ExcludePicks(index, ips[1..]);
      at := Shifted(rest, keep);
      ShiftedPicks(index.Exclude(ips[1..]), ips, rest, keep);
      forall k | 0 <= k < |ips|
        ensures k in at <==> !index.Contains(ips[k])
      {
        assert k > 0 ==> ips[1..][k - 1] == ips[k];
      }
      assert index.Exclude(ips) == (if keep then [ips[0]] else []) + index.Exclude(ips[1..]);
    }
  }

  /** The exclusion keeps every unlisted position, only those, and in the given order. */
  lemma ExcludeKeepsUnlistedInOrder(index: NetworkIndex, networks: seq<Network>, ips: seq<Ip>)
    returns (at: seq<int>)
    requires index.WellFormed() && index.Represents(networks)
    ensures PicksInOrder(index.Exclude(ips), ips, at)
    ensures forall k | 0 <= k < |ips| :: k in at <==> !Listed(networks, ips[k])
  {
    at := ExcludePicks(index, ips);
    forall k | 0 <= k < |ips|
      ensures k in at <==> !Listed(networks, ips[k])
    {
      IndexRefinesPrefixSearch(index, networks, ips[k]);
    }
  }

  function Shifted(at: seq<int>, withFirst: bool): seq<int> {
    (if withFirst then [0] else []) + seq(|at|, i requires 0 <= i < |at| => at[i] + 1)
  }

  lemma ShiftedPicks(r: seq<Ip>, s: seq<Ip>, at: seq<int>, withFirst: bool)
    requires s != [] && PicksInOrder(r, s[1..], at)
    ensures PicksInOrder((if withFirst then [s[0]] else []) + r, s, Shifted(at, withFirst))
    ensures 0 in Shifted(at, withFirst) <==> withFirst
    ensures forall k | k > 0 :: k in Shifted(at, withFirst) <==> k - 1 in at
  {
    var shifted := Shifted(at, withFirst);
    var skip := if withFirst then 1 else 0;
    forall k | k > 0
      ensures k in shifted <==> k - 1 in at
    {
      if k - 1 in at {
        var i :| 0 <= i < |at| && at[i] == k - 1;
        assert shifted[i + skip] == k;
      }
    }
  }
}
