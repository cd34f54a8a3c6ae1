/** The privileged helper: two address tables that are replaced together or put back
    (src/f2bguard/pf_helper.py). */
module PfModel {
  import opened Networks
  import opened SortedAddresses
  import opened Wire

  const MAX_ADDRESSES := 100_000

  // ---------------------------------------------------------------- requests

  /** A string of a request, as the address parser sees it. */
  datatype Literal = Address(ip: Ip, canonical: bool) | NotAnAddress
  datatype Request = Replacement(ipv4: seq<Literal>, ipv6: seq<Literal>) | OtherOperation

  /** The requested addresses of both families. */
  datatype Pair<T> = Pair(v4: T, v6: T) {
    function Of(family: Family): T {
      if family == V4 then v4 else v6
    }

    function With(family: Family, value: T): Pair<T> {
      if family == V4 then this.(v4 := value) else this.(v6 := value)
    }
  }

  predicate AcceptableLiteral(literal: Literal, family: Family) {
    literal.Address? && literal.canonical && literal.ip.family == family && Admissible(literal.ip)
  }

  predicate AcceptableRequest(request: Request) {
    && request.Replacement?
    && |request.ipv4| + |request.ipv6| <= MAX_ADDRESSES
    && (forall l | l in request.ipv4 :: AcceptableLiteral(l, V4))
    && (forall l | l in request.ipv6 :: AcceptableLiteral(l, V6))
  }

  function IpsOf(literals: seq<Literal>): set<Ip> {
    set l | l in literals && l.Address? :: l.ip
  }

  // ---------------------------------------------------------------- tables

  function HostEntry(ip: Ip): Network {
    Cidr(ip.family, ip.value, Width(ip.family))
  }

  function AddressOf(n: Network): Ip {
    Ip(n.family, n.value)
  }

  predicate IsHostEntry(n: Network, family: Family) {
    n.family == family && n.prefix == Width(family)
  }

  type Tables = Pair<set<Network>>

  /** How one table command ends: it may fail without having acted or after having acted. */
  datatype Ending = Done | FailedBefore | FailedAfter

  /** The endings of the commands of one replacement, in the order in which they are issued. */
  datatype Endings = Endings(
    show4: Ending, show6: Ending, write4: Ending, write6: Ending, undo4: Ending, undo6: Ending)

  datatype Answer =
    | Replaced(applied4: nat, applied6: nat, digest: seq<Ip>)
    | BadRequest
    | NoWhitelist
    | NotShown
    | Failed(rolledBack: bool)

  function Write(t: Tables, family: Family, entries: set<Network>, ending: Ending): Tables {
    if ending.FailedBefore? then t else t.With(family, entries)
  }

  function Hosts(ips: set<Ip>): set<Network> {
    set ip | ip in ips :: HostEntry(ip)
  }

  function Unlisted(ips: set<Ip>, whitelist: seq<Network>): set<Ip> {
    set ip | ip in ips && !Listed(whitelist, ip)
  }

  /** The prior entries that the whitelist does not cover. */
  function Safe(entries: set<Network>, whitelist: seq<Network>): set<Network> {
    set n | n in entries && !Listed(whitelist, AddressOf(n))
  }

  /** What a digest covers: both families, each sorted. */
  function DigestOf(ips: set<Ip>): seq<Ip> {
    SortedIps(ips, V4) + SortedIps(ips, V6)
  }

  function Undo(t: Tables, before: Tables, whitelist: seq<Network>, endings: Endings): (Tables, Answer) {
    var half := Write(t, V4, Safe(before.v4, whitelist), endings.undo4);
    (Write(half, V6, Safe(before.v6, whitelist), endings.undo6),
     Failed(endings.undo4.Done? && endings.undo6.Done?))
  }

  /** The whole replacement. */
  function Replace(t: Tables, request: Request, whitelist: Option<seq<Network>>, endings: Endings): (Tables, Answer) {
    if !AcceptableRequest(request) then (t, BadRequest)
    else if whitelist.None? then (t, NoWhitelist)
    else if !endings.show4.Done? || !(forall n | n in t.v4 :: IsHostEntry(n, V4)) then (t, NotShown)
    else if !endings.show6.Done? || !(forall n | n in t.v6 :: IsHostEntry(n, V6)) then (t, NotShown)
    else
      var list := whitelist.value;
      var new4, new6 := Unlisted(IpsOf(request.ipv4), list), Unlisted(IpsOf(request.ipv6), list);
      var first := Write(t, V4, Hosts(new4), endings.write4);
      if !endings.write4.Done? then Undo(first, t, list, endings)
      else
        var both := Write(first, V6, Hosts(new6), endings.write6);
        if !endings.write6.Done? then Undo(both, t, list, endings)
        else (both, Replaced(|new4|, |new6|, DigestOf(new4 + new6)))
  }
}
