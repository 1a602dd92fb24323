/** How many bytes of a packet a filter may have to look at: with that many it is settled, and no leaf is
    settled by fewer. */
module Needs {
  import opened Words
  import opened Errors
  import opened Ast
  import opened LinkType
  import opened Filters
  import opened Codegen
  import opened GateProofs
  import opened PrefixProofs
  import M = Meaning

  // ----- the bytes looked at -----

  /** The end of the field that tells the network protocol. */
  function GateEnd(link: LinkType): nat {
    match L3Info(link).ethertypeOffset
    case Some(o) => o + 2
    case None => 1
  }

  /** The end of the part of an address that its prefix reaches. */
  function AddressEnd(p: CompiledPrimitive, link: LinkType): nat
    requires (p.ty.Host? || p.ty.Net?) && PrefixInRange(p.ty)
  {
    var at := L3Info(link).ipBase + M.AddressAt(M.FamilyOf(p.proto), p.dir);
    if p.ty.addr.V4? then at + 4
    else if M.PrefixOf(p.ty) == 0 then 0
    else at + 4 * M.WordsReached(M.PrefixOf(p.ty))
  }

  /** A port is looked for behind an IPv4 header of up to 60 bytes. */
  function PortEnd(dir: DirTag, link: LinkType): nat {
    L3Info(link).ipBase + 62 + M.PortAt(dir)
  }

  function LeafNeeds(p: CompiledPrimitive, link: LinkType): nat
    requires PrefixInRange(p.ty)
  {
    if p.ty.Host? || p.ty.Net? then
      Max(GateEnd(link),
          Max(if M.TransportOf(p.proto).Some? then L3Info(link).ipBase + 10 else 0, AddressEnd(p, link)))
    else PortEnd(p.dir, link)
  }

  function EtherNeeds(kind: EtherKind): nat {
    match kind
    case EtherHost(_, Some(Dst)) => 6
    case EtherHost(_, _) => 12
    case EtherProto(_) => 14
    case Broadcast => 6
    case Multicast => 1
  }

  function ExprNeeds(e: ExpandedExpr, link: LinkType): nat
    requires InRange(e)
  {
    match e
    case Leaf(p) => LeafNeeds(p, link)
    case EtherLeaf(ether) => EtherNeeds(ether.kind)
    case Not(inner) => ExprNeeds(inner, link)
    case And(l, r) => Max(ExprNeeds(l, link), ExprNeeds(r, link))
    case Or(l, r) => Max(ExprNeeds(l, link), ExprNeeds(r, link))
  }

  // ----- they are enough -----

  lemma AddressSettled(p: CompiledPrimitive, link: LinkType, packet: Bytes)
    requires (p.ty.Host? || p.ty.Net?) && PrefixInRange(p.ty) && |packet| >= LeafNeeds(p, link)
    ensures !M.LeafMeaning(p, link, packet).Unknown?
  {
  }

  lemma PortSettled(num: nat, dir: DirTag, lo: nat, hi: nat, link: LinkType, packet: Bytes)
    requires |packet| >= PortEnd(dir, link)
    ensures !M.Port4Meaning(link, num, dir, lo, hi, packet).Unknown?
    ensures !M.Port6Meaning(link, num, dir, lo, hi, packet).Unknown?
  {
    assert Pow2(4) == 16;
  }

  lemma LeafSettled(p: CompiledPrimitive, link: LinkType, packet: Bytes)
    requires PrefixInRange(p.ty) && |packet| >= LeafNeeds(p, link)
    ensures !M.LeafMeaning(p, link, packet).Unknown?
  {
    if p.ty.Host? || p.ty.Net? {
      AddressSettled(p, link, packet);
    } else {
      var lo, hi := if p.ty.Port? then p.ty.port else p.ty.lo, if p.ty.Port? then p.ty.port else p.ty.hi;
      var num := M.TransportOf(p.proto);
      if num.Some? {
        PortSettled(num.value, p.dir, lo, hi, link, packet);
      }
    }
  }

  /** A packet that holds what the expression needs settles it. */
  lemma {:induction false} SettledByNeeds(e: ExpandedExpr, link: LinkType, packet: Bytes)
    requires InRange(e) && |packet| >= ExprNeeds(e, link)
    ensures !M.ExprMeaning(e, link, packet).Unknown?
    decreases e
  {
    match e
    case Leaf(p) =>
      LeafSettled(p, link, packet);
    case EtherLeaf(_) =>
    case Not(inner) =>
      SettledByNeeds(inner, link, packet);
    case And(l, r) =>
      SettledByNeeds(l, link, packet);
      SettledByNeeds(r, link, packet);
    case Or(l, r) =>
      SettledByNeeds(l, link, packet);
      SettledByNeeds(r, link, packet);
  }

  lemma LeafBounded(p: CompiledPrimitive, link: LinkType)
    requires PrefixInRange(p.ty)
    ensures LeafNeeds(p, link) <= L3Info(link).ipBase + 64
  {
  }

  /** No expression that compiles needs more than 64 bytes behind the link-layer header. */
  lemma {:induction false} NeedsBounded(e: ExpandedExpr, link: LinkType)
    requires InRange(e) && CondOf(e, link).Ok?
    ensures ExprNeeds(e, link) <= L3Info(link).ipBase + 64
    decreases e
  {
    match e
    case Leaf(p) =>
      LeafBounded(p, link);
    case EtherLeaf(_) =>
    case Not(inner) =>
      NeedsBounded(inner, link);
    case And(l, r) =>
      BinaryErrors(e, link);
      NeedsBounded(l, link);
      NeedsBounded(r, link);
    case Or(l, r) =>
      if IsDirPair(l, r) {
        assert InRange(l) && InRange(r);
        LeafBounded(l.prim, link);
        LeafBounded(r.prim, link);
      } else {
        BinaryErrors(e, link);
        NeedsBounded(l, link);
        NeedsBounded(r, link);
      }
  }

  // ----- and no leaf is settled by fewer -----

  /** Some packet of this length does not settle the leaf. */
  ghost predicate Unsettled(e: ExpandedExpr, link: LinkType, n: nat)
    requires InRange(e)
  {
    exists packet: Bytes :: |packet| == n && M.ExprMeaning(e, link, packet).Unknown?
  }

  lemma TwoBytes(packet: Bytes, at: nat)
    requires at + 2 <= |packet|
    ensures BigEndian(packet[at..at + 2]) == packet[at] as int * 0x100 + packet[at + 1] as int
  {
    BigEndian2(packet[at..at + 2]);
  }

  /** The fields that tell the network protocol, set to this one. */
  function GateByte(link: LinkType, family: M.Family, i: nat): Option<u8> {
    var base := L3Info(link).ipBase;
    if i == base then Some(if family.IPv6? then 0x60 else 0x4f)
    else if i + 2 == base then Some(M.EthertypeOf(family) / 0x100)
    else if i + 1 == base then Some(M.EthertypeOf(family) % 0x100)
    else None
  }

  ghost predicate Gated(link: LinkType, family: M.Family, packet: Bytes) {
    forall i :: 0 <= i < |packet| && GateByte(link, family, i).Some? ==> packet[i] == GateByte(link, family, i).value
  }

  lemma GatedCarries(link: LinkType, family: M.Family, packet: Bytes)
    requires Gated(link, family, packet) && |packet| > L3Info(link).ipBase
    requires link.Raw? ==> family.IPv4? || family.IPv6?
    ensures M.Carries(link, family, packet).Yes?
  {
    var base := L3Info(link).ipBase;
    assert GateByte(link, family, base).Some?;
    if link.Raw? {
      BigEndian1(packet[0..1]);
      assert Pow2(4) == 16;
    } else {
      assert GateByte(link, family, base - 2).Some? && GateByte(link, family, base - 1).Some?;
      TwoBytes(packet, base - 2);
    }
  }

  // IPv4, ARP and RARP addresses: the packet ends in the last byte of the address.

  function Addr4Byte(p: CompiledPrimitive, link: LinkType, i: nat): u8 {
    var gate, num := GateByte(link, M.FamilyOf(p.proto), i), M.TransportOf(p.proto);
    if gate.Some? then gate.value
    else if i == L3Info(link).ipBase + 9 && num.Some? then num.value
    else 0
  }

  lemma Addr4Unsettled(p: CompiledPrimitive, link: LinkType)
    requires (p.ty.Host? || p.ty.Net?) && p.ty.addr.V4? && PrefixInRange(p.ty) && CondOf(Leaf(p), link).Ok?
    ensures Unsettled(Leaf(p), link, LeafNeeds(p, link) - 1)
  {
    var base, num := L3Info(link).ipBase, M.TransportOf(p.proto);
    var n := LeafNeeds(p, link) - 1;
    var packet: Bytes := seq(n, (i: nat) => Addr4Byte(p, link, i));
    GatedCarries(link, M.FamilyOf(p.proto), packet);
    if num.Some? {
      assert packet[base + 9] == num.value;
      BigEndian1(packet[base + 9..base + 10]);
    }
    assert M.LeafMeaning(p, link, packet).Unknown?;
    assert |packet| == n && M.ExprMeaning(Leaf(p), link, packet).Unknown?;
  }

  // IPv6 addresses: all words agree, and the packet ends in the last byte of the last one.

  function Addr6Byte(link: LinkType, o: nat, addr: u128, i: nat): u8 {
    var gate := GateByte(link, M.IPv6, i);
    if gate.Some? then gate.value
    else if o <= i < o + 16 then OctetOf(AddrWord(addr, (i - o) / 4), (i - o) % 4)
    else 0
  }

  lemma WordOfOctets(packet: Bytes, at: nat, w: u32)
    requires at + 4 <= |packet| && forall j :: 0 <= j < 4 ==> packet[at + j] == OctetOf(w, j)
    ensures M.Field(packet, at, 4) == Some(w as int)
  {
    BigEndian4(packet[at..at + 4]);
    assert packet[at + 0] == OctetOf(w, 0) && packet[at + 1] == OctetOf(w, 1);
    assert packet[at + 2] == OctetOf(w, 2) && packet[at + 3] == OctetOf(w, 3);
    OctetsMakeWord(w);
  }

  /** The packet has every whole word of the address that it has room for. */
  ghost predicate WordsAgree(packet: Bytes, o: nat, addr: u128) {
    forall i :: 0 <= i < 4 && o + 4 * i + 4 <= |packet| ==>
      M.Field(packet, o + 4 * i, 4) == Some(AddrWord(addr, i) as int)
  }

  lemma {:induction false} LastWordMissing(packet: Bytes, o: nat, addr: u128, prefix: nat, i: nat)
    requires 32 * i < prefix <= 128 && WordsAgree(packet, o, addr)
    requires |packet| == o + 4 * M.WordsReached(prefix) - 1
    ensures WordByWord(packet, o + 4 * i, addr, prefix, i).Unknown?
    decreases prefix - 32 * i
  {
    if i < WordsOf(prefix) - 1 {
      FullWord(packet, o + 4 * i, AddrWord(addr, i));
      LastWordMissing(packet, o, addr, prefix, i + 1);
    }
  }

  lemma Addr6Agrees(link: LinkType, o: nat, addr: u128, packet: Bytes)
    requires o > L3Info(link).ipBase
    requires forall i :: 0 <= i < |packet| ==> packet[i] == Addr6Byte(link, o, addr, i)
    ensures Gated(link, M.IPv6, packet) && WordsAgree(packet, o, addr)
  {
    forall i | 0 <= i < 4 && o + 4 * i + 4 <= |packet|
      ensures M.Field(packet, o + 4 * i, 4) == Some(AddrWord(addr, i) as int)
    {
      forall j | 0 <= j < 4 ensures packet[o + 4 * i + j] == OctetOf(AddrWord(addr, i), j) {
        Addr6ByteAt(link, o, addr, i, j);
      }
      WordOfOctets(packet, o + 4 * i, AddrWord(addr, i));
    }
  }

  lemma Addr6ByteAt(link: LinkType, o: nat, addr: u128, i: nat, j: nat)
    requires o > L3Info(link).ipBase && i < 4 && j < 4
    ensures Addr6Byte(link, o, addr, o + 4 * i + j) == OctetOf(AddrWord(addr, i), j)
  {
    assert (4 * i + j) / 4 == i && (4 * i + j) % 4 == j;
  }

  lemma Addr6Unknown(p: CompiledPrimitive, link: LinkType, packet: Bytes)
    requires (p.ty.Host? || p.ty.Net?) && p.ty.addr.V6? && PrefixInRange(p.ty) && p.proto.Ip6?
    requires M.Carries(link, M.IPv6, packet).Yes?
    requires M.InNetwork6(packet, L3Info(link).ipBase + M.AddressAt(M.IPv6, p.dir), 4, p.ty.addr.v6,
                          M.PrefixOf(p.ty)).Unknown?
    ensures M.ExprMeaning(Leaf(p), link, packet).Unknown?
  {
  }

  lemma Addr6Cut(p: CompiledPrimitive, link: LinkType, packet: Bytes)
    requires (p.ty.Host? || p.ty.Net?) && p.ty.addr.V6? && PrefixInRange(p.ty) && p.proto.Ip6?
    requires M.PrefixOf(p.ty) > 0 && |packet| == AddressEnd(p, link) - 1
    requires var o := L3Info(link).ipBase + M.AddressAt(M.IPv6, p.dir);
             forall i :: 0 <= i < |packet| ==> packet[i] == Addr6Byte(link, o, p.ty.addr.v6, i)
    ensures M.ExprMeaning(Leaf(p), link, packet).Unknown?
  {
    var addr, prefix := p.ty.addr.v6, M.PrefixOf(p.ty);
    var o := L3Info(link).ipBase + M.AddressAt(M.IPv6, p.dir);
    Addr6Agrees(link, o, addr, packet);
    GatedCarries(link, M.IPv6, packet);
    LastWordMissing(packet, o, addr, prefix, 0);
    WholeWordByWord(packet, o, addr, prefix);
    Addr6Unknown(p, link, packet);
  }

  lemma Addr6Unsettled(p: CompiledPrimitive, link: LinkType)
    requires (p.ty.Host? || p.ty.Net?) && p.ty.addr.V6? && PrefixInRange(p.ty) && CondOf(Leaf(p), link).Ok?
    requires M.PrefixOf(p.ty) > 0
    ensures Unsettled(Leaf(p), link, LeafNeeds(p, link) - 1)
  {
    var o := L3Info(link).ipBase + M.AddressAt(M.IPv6, p.dir);
    var n := LeafNeeds(p, link) - 1;
    var packet: Bytes := seq(n, (i: nat) => Addr6Byte(link, o, p.ty.addr.v6, i));
    assert p.proto.Ip6? && n == AddressEnd(p, link) - 1;
    Addr6Cut(p, link, packet);
    assert |packet| == n && M.ExprMeaning(Leaf(p), link, packet).Unknown?;
  }

  /** A network of prefix length zero looks at the gate only. */
  lemma AnyAddr6Unsettled(p: CompiledPrimitive, link: LinkType)
    requires p.ty.Net? && p.ty.addr.V6? && PrefixInRange(p.ty) && CondOf(Leaf(p), link).Ok? && M.PrefixOf(p.ty) == 0
    ensures Unsettled(Leaf(p), link, LeafNeeds(p, link) - 1)
  {
    var n := LeafNeeds(p, link) - 1;
    var packet: Bytes := seq(n, (i: nat) => 0);
    assert M.Carries(link, M.IPv6, packet).Unknown?;
    assert |packet| == n && M.ExprMeaning(Leaf(p), link, packet).Unknown?;
  }

  // Ports: a first IPv4 fragment with a header of 60 bytes, and the packet ends in the last byte of the port.

  function PortByte(link: LinkType, num: u8, i: nat): u8 {
    var gate := GateByte(link, M.IPv4, i);
    if gate.Some? then gate.value else if i == L3Info(link).ipBase + 9 then num else 0
  }

  lemma Port4Cut(link: LinkType, num: u8, dir: DirTag, lo: nat, hi: nat, packet: Bytes)
    requires |packet| == PortEnd(dir, link) - 1
    requires forall i :: 0 <= i < |packet| ==> packet[i] == PortByte(link, num, i)
    ensures M.Port4Meaning(link, num as nat, dir, lo, hi, packet).Unknown?
  {
    var base := L3Info(link).ipBase;
    GatedCarries(link, M.IPv4, packet);
    assert packet[base + 9] == num && packet[base + 6] == 0 && packet[base + 7] == 0 && packet[base] == 0x4f;
    BigEndian1(packet[base + 9..base + 10]);
    TwoBytes(packet, base + 6);
    LongHeader(link, dir, packet);
    assert 0 % Pow2(13) == 0;
  }

  lemma LongHeader(link: LinkType, dir: DirTag, packet: Bytes)
    requires var base := L3Info(link).ipBase; |packet| == PortEnd(dir, link) - 1 && packet[base] == 0x4f
    ensures M.Port4Field(link, dir, packet) == None
  {
    var base := L3Info(link).ipBase;
    BigEndian1(packet[base..base + 1]);
    assert Pow2(4) == 16 && M.Below(M.Field(packet, base, 1), 4) == Some(15);
  }

  lemma PortUnsettled(p: CompiledPrimitive, link: LinkType)
    requires (p.ty.Port? || p.ty.PortRange?) && CondOf(Leaf(p), link).Ok?
    ensures Unsettled(Leaf(p), link, LeafNeeds(p, link) - 1)
  {
    var lo, hi := if p.ty.Port? then p.ty.port else p.ty.lo, if p.ty.Port? then p.ty.port else p.ty.hi;
    var num := M.TransportOf(p.proto).value;
    var packet: Bytes := seq(PortEnd(p.dir, link) - 1, (i: nat) => PortByte(link, num, i));
    Port4Cut(link, num, p.dir, lo, hi, packet);
    assert |packet| == LeafNeeds(p, link) - 1 && M.ExprMeaning(Leaf(p), link, packet).Unknown?;
  }

  // Hardware addresses: the first four octets agree, and the packet ends in the last one.

  function MacByte(at: nat, mac: MacAddr, i: nat): u8 {
    if at <= i < at + 4 then mac[i - at] else if i == 0 then (mac[0] as int + 1) % 0x100 else 0
  }

  lemma MacUnsettled(at: nat, mac: MacAddr)
    ensures var packet: Bytes := seq(at + 5, (i: nat) => MacByte(at, mac, i)); M.MacIs(packet, at, mac).Unknown?
  {
    var packet: Bytes := seq(at + 5, (i: nat) => MacByte(at, mac, i));
    assert packet[at..at + 4] == mac[..4];
  }

  /** Nor is it the destination, if it is not looked for there. */
  lemma OtherMac(mac: MacAddr)
    ensures var packet: Bytes := seq(11, (i: nat) => MacByte(6, mac, i)); M.MacIs(packet, 0, mac).No?
  {
    var packet: Bytes := seq(11, (i: nat) => MacByte(6, mac, i));
    BigEndian4(packet[0..4]);
    BigEndian4(mac[..4]);
    assert packet[0..4][0] != mac[..4][0];
  }

  lemma EtherUnsettled(ether: EtherPrimitive, link: LinkType)
    ensures Unsettled(EtherLeaf(ether), link, EtherNeeds(ether.kind) - 1)
  {
    var n := EtherNeeds(ether.kind) - 1;
    var packet: Bytes;
    match ether.kind {
      case EtherHost(mac, dir) =>
        var at := if dir == Some(Dst) then 0 else 6;
        packet := seq(at + 5, (i: nat) => MacByte(at, mac, i));
        MacUnsettled(at, mac);
        if dir.None? {
          OtherMac(mac);
        }
      case Broadcast =>
        var mac := [0xff, 0xff, 0xff, 0xff, 0xff, 0xff];
        packet := seq(5, (i: nat) => MacByte(0, mac, i));
        MacUnsettled(0, mac);
      case _ =>
        packet := seq(n, (i: nat) => 0);
    }
    assert |packet| == n && M.ExprMeaning(EtherLeaf(ether), link, packet).Unknown?;
  }

  /** A leaf that compiles is settled by every packet of at least `n` bytes if and only if `n` is at least what it
      needs. */
  lemma LeafNeedsExactly(e: ExpandedExpr, link: LinkType, n: nat)
    requires (e.Leaf? || e.EtherLeaf?) && InRange(e) && CondOf(e, link).Ok?
    ensures (forall packet: Bytes :: |packet| >= n ==> !M.ExprMeaning(e, link, packet).Unknown?) <==>
            n >= ExprNeeds(e, link)
  {
    if n >= ExprNeeds(e, link) {
      forall packet: Bytes | |packet| >= n ensures !M.ExprMeaning(e, link, packet).Unknown? {
        SettledByNeeds(e, link, packet);
      }
    } else {
      match e {
        case EtherLeaf(ether) => EtherUnsettled(ether, link);
        case Leaf(p) =>
          if p.ty.Port? || p.ty.PortRange? {
            PortUnsettled(p, link);
          } else if p.ty.addr.V4? {
            Addr4Unsettled(p, link);
          } else if M.PrefixOf(p.ty) > 0 {
            Addr6Unsettled(p, link);
          } else {
            AnyAddr6Unsettled(p, link);
          }
      }
      assert Unsettled(e, link, ExprNeeds(e, link) - 1);
    }
  }
}
