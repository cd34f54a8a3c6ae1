/** Lists of addresses in ascending order, as the store and the helper make them. */
module SortedAddresses {
  import opened Sets
  import opened Wire

  /** The addresses of one family, sorted. */
  function SortedIps(ips: set<Ip>, family: Family): (r: seq<Ip>)
    ensures forall ip :: ip in r <==> ip in ips && ip.family == family
    ensures forall i, j | 0 <= i < j < |r| :: r[i].value < r[j].value
  {
    var values := Ascending(set ip | ip in ips && ip.family == family :: ip.value);
    var r := seq(|values|, i requires 0 <= i < |values| => Ip(family, values[i]));
    assert forall ip :: ip in r <==> ip in ips && ip.family == family by {
      forall ip
        ensures ip in r <==> ip in ips && ip.family == family
      {
        if ip in r {
          var i :| 0 <= i < |r| && r[i] == ip;
          assert values[i] in values;
          var known :| known in ips && known.family == family && known.value == values[i];
          assert known == ip;
        }
        if ip in ips && ip.family == family {
          assert ip.value in values;
          var i :| 0 <= i < |values| && values[i] == ip.value;
          assert r[i] == ip;
        }
      }
    }
    r
  }

  lemma SortedListsAgree(a: seq<Ip>, b: seq<Ip>, family: Family)
    requires (forall ip | ip in a :: ip.family == family) && forall ip | ip in b :: ip.family == family
    requires forall i, j | 0 <= i < j < |a| :: a[i].value < a[j].value
    requires forall i, j | 0 <= i < j < |b| :: b[i].value < b[j].value
    requires forall ip :: ip in a <==> ip in b
    ensures a == b
  {
    var u := seq(|a|, i requires 0 <= i < |a| => a[i].value);
    var v := seq(|b|, i requires 0 <= i < |b| => b[i].value);
    forall x
      ensures x in u <==> x in v
    {
      if x in u {
        var i :| 0 <= i < |u| && u[i] == x;
        assert a[i] in b;
        var j :| 0 <= j < |b| && b[j] == a[i];
        assert v[j] == x;
      }
      if x in v {
        var i :| 0 <= i < |v| && v[i] == x;
        assert b[i] in a;
        var j :| 0 <= j < |a| && a[j] == b[i];
        assert u[j] == x;
      }
    }
    AscendingIsUnique(u, v);
    forall i | 0 <= i < |a|
      ensures a[i] == b[i]
    {
      assert u[i] == v[i] && a[i] in a && b[i] in b;
    }
  }

  lemma {:induction false} AscendingSize(s: seq<nat>, of: set<nat>)
    requires Ascends(s) && forall x :: x in s <==> x in of
    ensures |s| == |of|
  {
    if s == [] {
      assert of == {};
    } else {
      forall x
        ensures x in s[1..] <==> x in of - {s[0]}
      {
        TailMembers(s, x);
      }
      AscendingSize(s[1..], of - {s[0]});
    }
  }

  lemma FamilySize(ips: set<Ip>, family: Family)
    ensures |SortedIps(ips, family)| == |set ip | ip in ips && ip.family == family|
  {
    var members := set ip | ip in ips && ip.family == family;
    var values := set ip | ip in ips && ip.family == family :: ip.value;
    AscendingSize(Ascending(values), values);
    assert values == set ip | ip in members :: ip.value;
    ValuesSize(members, family);
  }

  lemma {:induction false} ValuesSize(members: set<Ip>, family: Family)
    requires forall ip | ip in members :: ip.family == family
    ensures |set ip | ip in members :: ip.value| == |members|
  {
    var values := set ip | ip in members :: ip.value;
    if members != {} {
      var ip := Pick(members);
      var rest := members - {ip};
      ValuesSize(rest, family);
      var fewer := set o | o in rest :: o.value;
      assert ip.value !in fewer;
      assert values == fewer + {ip.value};
    } else {
      assert values == {};
    }
  }

  lemma SameFamilySorts(part: set<Ip>, ips: set<Ip>, family: Family)
    requires forall ip :: ip in part <==> ip in ips && ip.family == family
    ensures SortedIps(part, family) == SortedIps(ips, family)
  {
    assert (set ip | ip in part && ip.family == family :: ip.value) == set ip | ip in ips && ip.family == family :: ip.value;
  }
}
