/** What a filter means, in terms of the packet's headers and nothing else.

    A question about a packet has three answers: it holds, it does not, or it cannot be settled because
    a field that has to be looked at lies past the packet's end. Connectives go from left to right and
    look no further than they must. Fields follow section 3.1 of RFC 791 (IPv4), section 3 of RFC 8200
    (IPv6), RFC 826 (ARP), and the first two halfwords of the transport headers of section 3.1 of
    RFC 9293 and of RFC 768. */
module Meaning {
  import opened Words
  import opened Errors
  import opened Ast
  import opened LinkType

  datatype Verdict = Yes | No | Unknown {
    function Negated(): Verdict {
      match this
      case Yes => No
      case No => Yes
      case Unknown => Unknown
    }
    function AndThen(that: Verdict): Verdict {
      if Yes? then that else this
    }
    function OrElse(that: Verdict): Verdict {
      if No? then that else this
    }
  }

  /** The big-endian field of `n` bytes at `offset`, if the packet reaches that far. */
  function Field(packet: Bytes, offset: nat, n: nat): Option<nat> {
    if offset + n <= |packet| then Some(BigEndian(packet[offset..offset + n])) else None
  }

  function Truth(b: bool): Verdict {
    if b then Yes else No
  }

  function FieldIs(f: Option<nat>, value: nat): Verdict {
    match f
    case Some(v) => Truth(v == value)
    case None => Unknown
  }

  function FieldWithin(f: Option<nat>, lo: nat, hi: nat): Verdict {
    match f
    case Some(v) => Truth(lo <= v <= hi)
    case None => Unknown
  }

  /** The field without its low `drop` bits. */
  function Above(f: Option<nat>, drop: nat): Option<nat> {
    match f
    case Some(v) => Some(Quotient(v, Pow2(drop)))
    case None => None
  }

  function Quotient(v: nat, d: nat): nat
    requires d > 0
  {
    v / d
  }

  /** The low `keep` bits of the field. */
  function Below(f: Option<nat>, keep: nat): Option<nat> {
    match f
    case Some(v) => Some(v % Pow2(keep))
    case None => None
  }

  // ----- the network layer -----

  datatype Family = IPv4 | IPv6 | ARP | RARP

  function EthertypeOf(family: Family): nat {
    match family
    case IPv4 => 0x0800
    case IPv6 => 0x86dd
    case ARP => 0x0806
    case RARP => 0x8035
  }

  /** Does the packet carry this network protocol? By its ethertype or, without one, by the version in
      the first nibble of its header. */
  function Carries(link: LinkType, family: Family, packet: Bytes): Verdict {
    match L3Info(link).ethertypeOffset
    case Some(o) => FieldIs(Field(packet, o, 2), EthertypeOf(family))
    case None =>
      (match family
       case IPv4 => FieldIs(Above(Field(packet, 0, 1), 4), 4)
       case IPv6 => FieldIs(Above(Field(packet, 0, 1), 4), 6)
       case _ => No)
  }

  /** IPv4's protocol field, and IPv6's next-header field. */
  function ProtocolIs(link: LinkType, family: Family, num: nat, packet: Bytes): Verdict {
    FieldIs(Field(packet, L3Info(link).ipBase + (if family == IPv6 then 6 else 9), 1), num)
  }

  // ----- addresses -----

  /** Where an address of this family sits in its header. */
  function AddressAt(family: Family, dir: DirTag): nat {
    match family
    case IPv4 => if dir.Src? then 12 else 16
    case IPv6 => if dir.Src? then 8 else 24
    case _ => if dir.Src? then 14 else 24
  }

  /** Does the IPv4 address at `offset` agree with `addr` in its top `prefix` bits? It is looked at even
      when `prefix` is zero. */
  function InNetwork4(packet: Bytes, offset: nat, addr: nat, prefix: nat): Verdict
    requires prefix <= 32
  {
    FieldIs(Above(Field(packet, offset, 4), 32 - prefix), Quotient(addr, Pow2(32 - prefix)))
  }

  /** Does the `4 * words`-byte address at `offset` agree with `addr` in its top `prefix` bits? Only the
      32-bit words the prefix reaches are looked at, in order: on a packet that ends before them, a
      mismatch among the words it has still says no. A prefix of zero looks at nothing. */
  function InNetwork6(packet: Bytes, offset: nat, words: nat, addr: nat, prefix: nat): Verdict
    requires prefix <= 32 * words
  {
    var reached, present := WordsReached(prefix), WordsPresent(packet, offset);
    if prefix == 0 then Yes
    else if reached <= present then
      Truth(Leading(packet, offset, reached) / Pow2(32 * reached - prefix) == addr / Pow2(32 * words - prefix))
    else if present > 0 && Leading(packet, offset, present) != addr / Pow2(32 * words - 32 * present) then No
    else Unknown
  }

  function WordsReached(prefix: nat): nat {
    (prefix + 31) / 32
  }

  function WordsPresent(packet: Bytes, offset: nat): (n: nat)
    ensures n > 0 ==> offset + 4 * n <= |packet|
  {
    if offset <= |packet| then (|packet| - offset) / 4 else 0
  }

  /** The first `n` words at `offset` as one number. */
  function Leading(packet: Bytes, offset: nat, n: nat): nat
    requires offset + 4 * n <= |packet|
  {
    BigEndian(packet[offset..][..4 * n])
  }

  // ----- leaves -----

  function FamilyOf(proto: CompiledProto): Family {
    match proto
    case Ip6 => IPv6
    case Arp => ARP
    case Rarp => RARP
    case _ => IPv4
  }

  /** The transport protocol a protocol name restricts to. */
  function TransportOf(proto: CompiledProto): Option<nat> {
    match proto
    case Icmp => Some(1)
    case Tcp => Some(6)
    case Udp => Some(17)
    case Sctp => Some(132)
    case _ => None
  }

  function PrefixOf(ty: PrimType): nat {
    if ty.Net? && ty.prefix.Some? then ty.prefix.value
    else if (ty.Host? || ty.Net?) && ty.addr.V6? then 128
    else 32
  }

  function AddressMeaning(p: CompiledPrimitive, addr: AddrLit, link: LinkType, packet: Bytes): Verdict
    requires (p.ty.Host? || p.ty.Net?) && p.ty.addr == addr && PrefixInRange(p.ty)
  {
    var family := FamilyOf(p.proto);
    var at := L3Info(link).ipBase + AddressAt(family, p.dir);
    var here := match addr
      case V4(a) => InNetwork4(packet, at, a, PrefixOf(p.ty))
      case V6(a) => InNetwork6(packet, at, 4, a, PrefixOf(p.ty));
    var gate := Carries(link, family, packet);
    match TransportOf(p.proto)
    case Some(num) => gate.AndThen(ProtocolIs(link, family, num, packet)).AndThen(here)
    case None => gate.AndThen(here)
  }

  function PortAt(dir: DirTag): nat {
    if dir.Src? then 0 else 2
  }

  /** The port in the transport header, which begins four times IHL bytes into the IPv4 packet. */
  function Port4Field(link: LinkType, dir: DirTag, packet: Bytes): Option<nat> {
    var base := L3Info(link).ipBase;
    match Below(Field(packet, base, 1), 4)
    case Some(ihl) => Field(packet, base + 4 * ihl + PortAt(dir), 2)
    case None => None
  }

  /** The port of a first fragment. */
  function Port4Meaning(link: LinkType, num: nat, dir: DirTag, lo: nat, hi: nat, packet: Bytes): Verdict {
    var base := L3Info(link).ipBase;
    Carries(link, IPv4, packet)
      .AndThen(ProtocolIs(link, IPv4, num, packet))
      .AndThen(FieldIs(Below(Field(packet, base + 6, 2), 13), 0))
      .AndThen(FieldWithin(Port4Field(link, dir, packet), lo, hi))
  }

  /** The port right behind IPv6's fixed header. */
  function Port6Meaning(link: LinkType, num: nat, dir: DirTag, lo: nat, hi: nat, packet: Bytes): Verdict {
    Carries(link, IPv6, packet)
      .AndThen(ProtocolIs(link, IPv6, num, packet))
      .AndThen(FieldWithin(Field(packet, L3Info(link).ipBase + 40 + PortAt(dir), 2), lo, hi))
  }

  function PortMeaning(p: CompiledPrimitive, lo: nat, hi: nat, link: LinkType, packet: Bytes): Verdict {
    match TransportOf(p.proto)
    case Some(num) =>
      Port4Meaning(link, num, p.dir, lo, hi, packet).OrElse(Port6Meaning(link, num, p.dir, lo, hi, packet))
    case None => No
  }

  function LeafMeaning(p: CompiledPrimitive, link: LinkType, packet: Bytes): Verdict
    requires PrefixInRange(p.ty)
  {
    match p.ty
    case Host(addr) => AddressMeaning(p, addr, link, packet)
    case Net(addr, _) => AddressMeaning(p, addr, link, packet)
    case Port(port) => PortMeaning(p, port, port, link, packet)
    case PortRange(lo, hi) => PortMeaning(p, lo, hi, link, packet)
  }

  /** A hardware address, compared as its first four octets and then its last two. */
  function MacIs(packet: Bytes, offset: nat, mac: MacAddr): Verdict {
    FieldIs(Field(packet, offset, 4), BigEndian(mac[..4]))
      .AndThen(FieldIs(Field(packet, offset + 4, 2), BigEndian(mac[4..])))
  }

  function EtherMeaning(kind: EtherKind, packet: Bytes): Verdict {
    match kind
    case EtherHost(mac, Some(Src)) => MacIs(packet, 6, mac)
    case EtherHost(mac, Some(Dst)) => MacIs(packet, 0, mac)
    case EtherHost(mac, None) => MacIs(packet, 0, mac).OrElse(MacIs(packet, 6, mac))
    case EtherProto(ethertype) => FieldIs(Field(packet, 12, 2), ethertype)
    case Broadcast => MacIs(packet, 0, [0xff, 0xff, 0xff, 0xff, 0xff, 0xff])
    case Multicast => FieldIs(Below(Field(packet, 0, 1), 1), 1)
  }

  /** The meaning of an expression. An `or` is an `or`, whatever its sides. */
  function ExprMeaning(e: ExpandedExpr, link: LinkType, packet: Bytes): Verdict
    requires InRange(e)
  {
    match e
    case Leaf(p) => LeafMeaning(p, link, packet)
    case EtherLeaf(ether) => EtherMeaning(ether.kind, packet)
    case Not(inner) => ExprMeaning(inner, link, packet).Negated()
    case And(l, r) => ExprMeaning(l, link, packet).AndThen(ExprMeaning(r, link, packet))
    case Or(l, r) => ExprMeaning(l, link, packet).OrElse(ExprMeaning(r, link, packet))
  }
}
