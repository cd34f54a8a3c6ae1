/** The vocabulary the sender, the receiver and the helper share: addresses, identifiers and the two
    request payloads of the protocol. Everything is already parsed; printing and parsing are not modelled. */
module Wire {

  datatype Option<+T> = None | Some(value: T)

  datatype Family = V4 | V6

  datatype Ip = Ip(family: Family, value: nat)

  datatype Jail = Jail(name: string)
  datatype Uuid = Uuid(bits: nat)
  datatype Client = Client(name: string)

  datatype Op = Ban | Unban

  datatype Event = Event(
    id: Uuid, number: nat, op: Op, jail: Jail, banId: Uuid, ip: Ip,
    permanent: Option<bool>, expiresAt: Option<real>)

  datatype Claim = Claim(
    jail: Jail, banId: Uuid, ip: Ip, permanent: bool, expiresAt: Option<real>)

  /** What one outbox row carries. */
  datatype Payload =
    | EventPayload(event: Event)
    | SnapshotPayload(id: Uuid, number: nat, claims: seq<Claim>)
  {
    /** The sequence number the sender allocated. */
    function Number(): nat {
      if EventPayload? then event.number else number
    }

    function Id(): Uuid {
      if EventPayload? then event.id else this.id
    }
  }

  const V4_SPACE: nat := 0x1_0000_0000
  const V6_SPACE: nat := 0x1_0000_0000_0000_0000_0000_0000_0000_0000
  const MAX_NUMBER: nat := 0x7fff_ffff_ffff_ffff

  /** The address policy that the sender, the receiver and the helper each apply: not unspecified,
      multicast, loopback or link-local, and not an IPv4-mapped IPv6 address. */
  predicate Admissible(ip: Ip) {
    match ip.family
    case V4 =>
      && 0 < ip.value < V4_SPACE
      && ip.value / 0x100_0000 != 127
      && ip.value / 0x1_0000 != 0xa9fe
      && ip.value / 0x1000_0000 != 0xe
    case V6 =>
      && 1 < ip.value < V6_SPACE
      && ip.value / 0x40_0000_0000_0000_0000_0000_0000_0000 != 0x3fa
      && ip.value / 0x100_0000_0000_0000_0000_0000_0000_0000 != 0xff
      && ip.value / 0x1_0000_0000 != 0xffff
  }

  predicate Alphanumeric(c: char) {
    'a' <= c <= 'z' || 'A' <= c <= 'Z' || '0' <= c <= '9'
  }

  /** Jail names the sender's hooks accept. */
  predicate SenderJail(jail: Jail) {
    && 1 <= |jail.name| <= 128
    && forall i | 0 <= i < |jail.name| :: Alphanumeric(jail.name[i]) || jail.name[i] in "_.-"
  }

  /** Jail names the receiver accepts. */
  predicate ReceiverJail(jail: Jail) {
    && 1 <= |jail.name| <= 128
    && Alphanumeric(jail.name[0])
    && forall i | 0 <= i < |jail.name| :: Alphanumeric(jail.name[i]) || jail.name[i] in "_.:-"
  }

  /** The two name policies differ: a sender name is refused by the receiver exactly when it starts
      with one of the three punctuation characters. */
  lemma JailPoliciesDifferOnFirstCharacter(jail: Jail)
    requires SenderJail(jail)
    ensures ReceiverJail(jail) <==> jail.name[0] !in "_.-"
  {
    assert forall c: char | c in "_.-" :: c == '_' || c == '.' || c == '-';
    assert jail.name[0] in "_.-" || Alphanumeric(jail.name[0]);
    forall i | 0 <= i < |jail.name|
      ensures Alphanumeric(jail.name[i]) || jail.name[i] in "_.:-"
    {
      assert "_.:-"[0] == '_' && "_.:-"[1] == '.' && "_.:-"[3] == '-';
      assert Alphanumeric(jail.name[i]) || jail.name[i] in "_.-";
    }
  }

  /** A jail name that a hook enqueues and the receiver refuses for ever. */
  lemma JailRefusedByReceiver()
    ensures SenderJail(Jail("_db")) && !ReceiverJail(Jail("_db"))
  {
    var j := Jail("_db");
    assert "_.-"[0] == '_';
    assert j.name[0] in "_.-";
    assert Alphanumeric(j.name[1]) && Alphanumeric(j.name[2]);
  }
}
