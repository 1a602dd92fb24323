/** What a port filter matches, said in header fields alone. */
module PortHeaders {
  import opened Words
  import opened Errors
  import opened Ast
  import opened LinkType
  import M = Meaning

  /** The packet reaches far enough to have this field, and it has this value. */
  predicate Has(packet: Bytes, offset: nat, n: nat, value: nat) {
    offset + n <= |packet| && BigEndian(packet[offset..offset + n]) == value
  }

  predicate HasWithin(packet: Bytes, offset: nat, n: nat, lo: nat, hi: nat) {
    offset + n <= |packet| && lo <= BigEndian(packet[offset..offset + n]) <= hi
  }

  /** Where the network header starts: behind 14 bytes of Ethernet, behind 16 of Linux cooked capture, or at once. */
  function HeaderAt(link: LinkType): nat {
    match link
    case Ethernet => 14
    case LinuxSll => 16
    case Raw => 0
  }

  /** IPv4, by ethertype or by the version nibble. */
  predicate IsIPv4(link: LinkType, packet: Bytes) {
    match link
    case Ethernet => Has(packet, 12, 2, 0x0800)
    case LinuxSll => Has(packet, 14, 2, 0x0800)
    case Raw => |packet| >= 1 && packet[0] / 16 == 4
  }

  predicate IsIPv6(link: LinkType, packet: Bytes) {
    match link
    case Ethernet => Has(packet, 12, 2, 0x86dd)
    case LinuxSll => Has(packet, 14, 2, 0x86dd)
    case Raw => |packet| >= 1 && packet[0] / 16 == 6
  }

  /** A fragment offset of zero. */
  predicate FirstFragment(link: LinkType, packet: Bytes) {
    var base := HeaderAt(link);
    base + 8 <= |packet| && BigEndian(packet[base + 6..base + 8]) % 0x2000 == 0
  }

  /** A port in range four times IHL bytes into the IPv4 packet. */
  predicate PortBehindHeader(link: LinkType, dir: DirTag, lo: nat, hi: nat, packet: Bytes) {
    var base := HeaderAt(link);
    base < |packet| && HasWithin(packet, base + 4 * (packet[base] % 16) + (if dir.Src? then 0 else 2), 2, lo, hi)
  }

  /** A first IPv4 fragment of this transport with such a port. */
  predicate IPv4PortMatch(link: LinkType, num: nat, dir: DirTag, lo: nat, hi: nat, packet: Bytes) {
    && IsIPv4(link, packet)
    && Has(packet, HeaderAt(link) + 9, 1, num)
    && FirstFragment(link, packet)
    && PortBehindHeader(link, dir, lo, hi, packet)
  }

  /** An IPv6 packet whose next header is this transport, with the port in range right behind it. */
  predicate IPv6PortMatch(link: LinkType, num: nat, dir: DirTag, lo: nat, hi: nat, packet: Bytes) {
    var base := HeaderAt(link);
    && IsIPv6(link, packet)
    && Has(packet, base + 6, 1, num)
    && HasWithin(packet, base + 40 + (if dir.Src? then 0 else 2), 2, lo, hi)
  }

  lemma VersionOf(packet: Bytes)
    ensures |packet| >= 1 ==> M.Above(M.Field(packet, 0, 1), 4) == Some(packet[0] as int / 16)
  {
    if |packet| >= 1 {
      assert packet[0..1] == [packet[0]];
      assert BigEndian([packet[0]]) == packet[0] by {
        assert [packet[0]][..0] == [];
      }
      Pow2Values();
    }
  }

  lemma CarriesIP(link: LinkType, packet: Bytes)
    ensures M.Carries(link, M.IPv4, packet).Yes? <==> IsIPv4(link, packet)
    ensures M.Carries(link, M.IPv6, packet).Yes? <==> IsIPv6(link, packet)
    ensures M.Carries(link, M.IPv6, packet).Yes? ==> M.Carries(link, M.IPv4, packet).No?
  {
    VersionOf(packet);
  }

  lemma FragmentOf(packet: Bytes, o: nat)
    ensures M.FieldIs(M.Below(M.Field(packet, o, 2), 13), 0).Yes? <==>
            o + 2 <= |packet| && BigEndian(packet[o..o + 2]) % 0x2000 == 0
  {
    Pow2Values();
  }

  lemma PortBehind(link: LinkType, dir: DirTag, lo: nat, hi: nat, packet: Bytes)
    ensures M.FieldWithin(M.Port4Field(link, dir, packet), lo, hi).Yes? <==> PortBehindHeader(link, dir, lo, hi, packet)
  {
    IhlOf(packet, L3Info(link).ipBase);
  }

  lemma IhlOf(packet: Bytes, base: nat)
    ensures base < |packet| ==> M.Below(M.Field(packet, base, 1), 4) == Some(packet[base] as int % 16)
    ensures base >= |packet| ==> M.Below(M.Field(packet, base, 1), 4) == None
  {
    if base < |packet| {
      assert packet[base..base + 1] == [packet[base]];
      assert BigEndian([packet[base]]) == packet[base] by {
        assert [packet[base]][..0] == [];
      }
      Pow2Values();
    }
  }

  lemma Port4InHeaders(link: LinkType, num: nat, dir: DirTag, lo: nat, hi: nat, packet: Bytes)
    ensures M.Port4Meaning(link, num, dir, lo, hi, packet).Yes? <==> IPv4PortMatch(link, num, dir, lo, hi, packet)
  {
    var base := L3Info(link).ipBase;
    var here := M.FieldWithin(M.Port4Field(link, dir, packet), lo, hi);
    CarriesIP(link, packet);
    FragmentOf(packet, base + 6);
    PortBehind(link, dir, lo, hi, packet);
    ProtocolByte(packet, base + 9, num);
    AllFour(M.Carries(link, M.IPv4, packet), M.FieldIs(M.Field(packet, base + 9, 1), num),
            M.FieldIs(M.Below(M.Field(packet, base + 6, 2), 13), 0), here);
  }

  lemma ProtocolByte(packet: Bytes, o: nat, num: nat)
    ensures M.FieldIs(M.Field(packet, o, 1), num).Yes? <==> Has(packet, o, 1, num)
  {
  }

  lemma AllFour(a: M.Verdict, b: M.Verdict, c: M.Verdict, d: M.Verdict)
    ensures a.AndThen(b).AndThen(c).AndThen(d).Yes? <==> a.Yes? && b.Yes? && c.Yes? && d.Yes?
  {
  }

  /** A port or port range is matched exactly by an IPv4 packet or by an IPv6 packet with such a port. */
  lemma PortInHeaders(p: CompiledPrimitive, lo: nat, hi: nat, num: nat, link: LinkType, packet: Bytes)
    requires M.TransportOf(p.proto) == Some(num)
    ensures M.PortMeaning(p, lo, hi, link, packet).Yes? <==>
            IPv4PortMatch(link, num, p.dir, lo, hi, packet) || IPv6PortMatch(link, num, p.dir, lo, hi, packet)
  {
    CarriesIP(link, packet);
    Port4InHeaders(link, num, p.dir, lo, hi, packet);
  }
}
