/** Cardinality facts about finite sets and integer ranges. */
module Sets {

  lemma {:induction false} SubsetSize<T>(a: set<T>, b: set<T>)
    requires a <= b
    ensures |a| <= |b|
  {
    if a != {} {
      var x :| x in a;
      SubsetSize(a - {x}, b - {x});
    }
  }

  /** The integers lo, lo + 1, ..., lo + n - 1. */
  function Range(lo: int, n: nat): (r: set<int>)
    ensures |r| == n
    ensures forall i :: i in r <==> lo <= i < lo + n
  {
    if n == 0 then {} else Range(lo, n - 1) + {lo + n - 1}
  }

  ghost function Pick<T>(s: set<T>): (x: T)
    requires s != {}
    ensures x in s
  {
    var x :| x in s;
    x
  }

  ghost function Least(s: set<int>): (m: int)
    requires s != {}
    ensures m in s && forall x | x in s :: m <= x
    decreases |s|
  {
    var x := Pick(s);
    if s == {x} then x
    else
      var m := Least(s - {x});
      assert forall y | y in s :: y == x || y in s - {x};
      if x < m then x else m
  }

  // ---------------------------------------------------------------- sorted lists

  predicate Ascends(s: seq<nat>) {
    forall i, j | 0 <= i < j < |s| :: s[i] < s[j]
  }

  predicate IsSmallest(m: nat, s: set<nat>) {
    m in s && forall x | x in s :: m <= x
  }

  lemma {:induction false} HasSmallest(s: set<nat>)
    requires s != {}
    ensures exists m :: IsSmallest(m, s)
  {
    var x := Pick(s);
    var rest := s - {x};
    if rest == {} {
      assert s == {x};
      assert IsSmallest(x, s);
    } else {
      HasSmallest(rest);
      var m :| IsSmallest(m, rest);
      assert s == rest + {x};
      assert IsSmallest(if x < m then x else m, s);
    }
  }

  lemma AscendsFrom(m: nat, rest: seq<nat>)
    requires Ascends(rest) && forall x | x in rest :: m < x
    ensures Ascends([m] + rest) && forall x :: x in [m] + rest <==> x == m || x in rest
  {
    var r := [m] + rest;
    assert forall i | 0 < i < |r| :: r[i] == rest[i - 1];
    assert forall i | 0 <= i < |rest| :: rest[i] in rest;
  }

  /** The library sort of a set of numbers. */
  function Ascending(s: set<nat>): (r: seq<nat>)
    ensures Ascends(r) && forall x :: x in r <==> x in s
  {
    if s == {} then []
    else
      HasSmallest(s);
      var m :| IsSmallest(m, s);
      var rest := Ascending(s - {m});
      AscendsFrom(m, rest);
      [m] + rest
  }

  /** A sorted list is determined by its members. */
  lemma {:induction false} AscendingIsUnique(a: seq<nat>, b: seq<nat>)
    requires Ascends(a) && Ascends(b) && forall x :: x in a <==> x in b
    ensures a == b
  {
    if a == [] {
      assert forall i | 0 <= i < |b| :: b[i] in b;
    } else {
      assert a[0] in b;
      assert b[0] in a;
      assert a[0] == b[0];
      forall x
        ensures x in a[1..] <==> x in b[1..]
      {
        TailMembers(a, x);
        TailMembers(b, x);
      }
      AscendingIsUnique(a[1..], b[1..]);
      assert a == [a[0]] + a[1..] && b == [b[0]] + b[1..];
    }
  }

  lemma TailMembers(a: seq<nat>, x: nat)
    requires a != [] && Ascends(a)
    ensures x in a[1..] <==> x in a && x != a[0]
  {
    if x in a && x != a[0] {
      var i :| 0 <= i < |a| && a[i] == x;
      assert a[1..][i - 1] == x;
    }
    if x in a[1..] {
      var i :| 0 <= i < |a[1..]| && a[1..][i] == x;
      assert a[i + 1] == x;
    }
  }
}
