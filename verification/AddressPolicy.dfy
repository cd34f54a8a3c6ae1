/** The address policy as a list of networks: the ranges that the special-purpose tests of the address
    library stand for, in prefix notation (section 3.1 of RFC 4632). */
module AddressPolicy {
  import opened Networks
  import opened Wire

  const SPECIAL_V4: seq<Network> := [
    Cidr(V4, 0, 32),             // 0.0.0.0
    Cidr(V4, 0x7f00_0000, 8),    // 127.0.0.0/8
    Cidr(V4, 0xa9fe_0000, 16),   // 169.254.0.0/16
    Cidr(V4, 0xe000_0000, 4)]    // 224.0.0.0/4

  const SPECIAL_V6: seq<Network> := [
    Cidr(V6, 0, 128),                                          // ::
    Cidr(V6, 1, 128),                                          // ::1
    Cidr(V6, 0xfe80_0000_0000_0000_0000_0000_0000_0000, 10),   // fe80::/10
    Cidr(V6, 0xff00_0000_0000_0000_0000_0000_0000_0000, 8),    // ff00::/8
    Cidr(V6, 0xffff_0000_0000, 96)]                            // ::ffff:0:0/96

  function Space(family: Family): nat {
    if family == V4 then V4_SPACE else V6_SPACE
  }

  lemma TwoBits(n: nat)
    ensures Pow2(n + 2) == 4 * Pow2(n)
  {
    assert Pow2(n + 2) == 2 * Pow2(n + 1);
  }

  lemma Byte(n: nat)
    ensures Pow2(n + 4) == 0x10 * Pow2(n) && Pow2(n + 6) == 0x40 * Pow2(n) && Pow2(n + 8) == 0x100 * Pow2(n)
  {
    TwoBits(n);
    TwoBits(n + 2);
    TwoBits(n + 4);
    TwoBits(n + 6);
  }

  /** The blocks that the networks below occupy. */
  lemma BlockSizes()
    ensures Pow2(0) == 1 && Pow2(16) == 0x1_0000 && Pow2(24) == 0x100_0000 && Pow2(28) == 0x1000_0000
    ensures Pow2(32) == 0x1_0000_0000
    ensures Pow2(118) == 0x40_0000_0000_0000_0000_0000_0000_0000
    ensures Pow2(120) == 0x100_0000_0000_0000_0000_0000_0000_0000
  {
    assert Pow2(0) == 1;
    hide Pow2;
    Byte(0);
    Byte(8);
    Byte(16);
    Byte(24);
    Byte(32);
    Byte(40);
    Byte(48);
    Byte(56);
    Byte(64);
    Byte(72);
    Byte(80);
    Byte(88);
    Byte(96);
    Byte(104);
    Byte(112);
  }

  /** An address of its family is admissible exactly if none of the special networks contains it. */
  lemma AdmissibleIffOutsideSpecialNetworks(ip: Ip)
    ensures Admissible(ip) <==> ip.value < Space(ip.family) && !Listed(SPECIAL_V4 + SPECIAL_V6, ip)
  {
    BlockSizes();
    hide Pow2;
    var all := SPECIAL_V4 + SPECIAL_V6;
    assert forall i | 0 <= i < 4 :: all[i] == SPECIAL_V4[i];
    assert forall i | 0 <= i < 5 :: all[i + 4] == SPECIAL_V6[i];
    if ip.family == V4 {
      SpecialV4(ip);
    } else {
      SpecialV6(ip);
    }
    assert Listed(all, ip) <==> Listed(SPECIAL_V4, ip) || Listed(SPECIAL_V6, ip);
  }

  lemma SpecialV4(ip: Ip)
    requires ip.family == V4
    ensures Admissible(ip) <==> ip.value < Space(V4) && !Listed(SPECIAL_V4, ip)
    ensures !Listed(SPECIAL_V6, ip)
  {
    BlockSizes();
    hide Pow2;
    var s := SPECIAL_V4;
    assert SharesPrefix(s[0], ip) <==> ip.value == 0;
    assert SharesPrefix(s[1], ip) <==> ip.value / 0x100_0000 == 127;
    assert SharesPrefix(s[2], ip) <==> ip.value / 0x1_0000 == 0xa9fe;
    assert SharesPrefix(s[3], ip) <==> ip.value / 0x1000_0000 == 0xe;
    forall n | n in s && SharesPrefix(n, ip)
      ensures !Admissible(ip)
    {
    }
  }

  lemma SpecialV6(ip: Ip)
    requires ip.family == V6
    ensures Admissible(ip) <==> ip.value < Space(V6) && !Listed(SPECIAL_V6, ip)
    ensures !Listed(SPECIAL_V4, ip)
  {
    BlockSizes();
    hide Pow2;
    var s := SPECIAL_V6;
    assert SharesPrefix(s[0], ip) <==> ip.value == 0;
    assert SharesPrefix(s[1], ip) <==> ip.value == 1;
    assert SharesPrefix(s[2], ip) <==> ip.value / 0x40_0000_0000_0000_0000_0000_0000_0000 == 0x3fa;
    assert SharesPrefix(s[3], ip) <==> ip.value / 0x100_0000_0000_0000_0000_0000_0000_0000 == 0xff;
    assert SharesPrefix(s[4], ip) <==> ip.value / 0x1_0000_0000 == 0xffff;
    forall n | n in s && SharesPrefix(n, ip)
      ensures !Admissible(ip)
    {
    }
  }
}
