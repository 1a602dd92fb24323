/** What a written filter asks of a frame, with every offset, every ethertype and every protocol number as a number. */
module Headers {
  import opened Words
  import opened Errors
  import opened Ast
  import opened LinkType
  import opened Vm
  import opened Filters
  import opened Codegen
  import opened PortHeaders
  import opened Compiler
  import opened SafeLength
  import opened Desugar
  import opened Rejections
  import M = Meaning

  // ----- the fields of a frame -----

  predicate IsArp(link: LinkType, packet: Bytes) {
    match link
    case Ethernet => Has(packet, 12, 2, 0x0806)
    case LinuxSll => Has(packet, 14, 2, 0x0806)
    case Raw => false
  }

  predicate IsRarp(link: LinkType, packet: Bytes) {
    match link
    case Ethernet => Has(packet, 12, 2, 0x8035)
    case LinuxSll => Has(packet, 14, 2, 0x8035)
    case Raw => false
  }

  /** IPv4 with this number in its protocol field. */
  predicate IsTransport4(link: LinkType, num: nat, packet: Bytes) {
    IsIPv4(link, packet) &&
    match link
    case Ethernet => Has(packet, 23, 1, num)
    case LinuxSll => Has(packet, 25, 1, num)
    case Raw => Has(packet, 9, 1, num)
  }

  /** The four bytes at `o` agree with `addr` in their top `prefix` bits. */
  predicate Net4At(packet: Bytes, o: nat, addr: nat, prefix: nat)
    requires prefix <= 32
  {
    o + 4 <= |packet| &&
    M.Quotient(BigEndian(packet[o..o + 4]), Pow2(32 - prefix)) == M.Quotient(addr, Pow2(32 - prefix))
  }

  /** The words at `o` that the prefix reaches agree with `addr` in the top `prefix` bits. */
  predicate Net6At(packet: Bytes, o: nat, addr: nat, prefix: nat)
    requires prefix <= 128
  {
    prefix == 0 ||
    var n := (prefix + 31) / 32 * 4;
    o + n <= |packet| &&
    M.Quotient(BigEndian(packet[o..o + n]), Pow2(8 * n - prefix)) == M.Quotient(addr, Pow2(128 - prefix))
  }

  function IPv4AddressAt(link: LinkType, dir: DirTag): nat {
    match (link, dir)
    case (Ethernet, Src) => 26
    case (Ethernet, Dst) => 30
    case (LinuxSll, Src) => 28
    case (LinuxSll, Dst) => 32
    case (Raw, Src) => 12
    case (Raw, Dst) => 16
  }

  function IPv6AddressAt(link: LinkType, dir: DirTag): nat {
    match (link, dir)
    case (Ethernet, Src) => 22
    case (Ethernet, Dst) => 38
    case (LinuxSll, Src) => 24
    case (LinuxSll, Dst) => 40
    case (Raw, Src) => 8
    case (Raw, Dst) => 24
  }

  /** The sender's and the target's protocol address; raw packets have no ARP. */
  function ArpAddressAt(link: LinkType, dir: DirTag): nat
    requires !link.Raw?
  {
    match (link, dir)
    case (Ethernet, Src) => 28
    case (Ethernet, Dst) => 38
    case (LinuxSll, Src) => 30
    case (LinuxSll, Dst) => 40
  }

  // ----- what is written with its protocol and its direction -----

  /** How many of an address's bits count. */
  function PrefixLength(ty: PrimType): nat
    requires (ty.Host? || ty.Net?) && PrefixInRange(ty)
  {
    if ty.Net? && ty.prefix.Some? then ty.prefix.value as nat else if ty.addr.V4? then 32 else 128
  }

  predicate IPv4AddressMatch(link: LinkType, dir: DirTag, ty: PrimType, packet: Bytes)
    requires (ty.Host? || ty.Net?) && PrefixInRange(ty) && ty.addr.V4?
  {
    Net4At(packet, IPv4AddressAt(link, dir), ty.addr.v4 as nat, PrefixLength(ty))
  }

  predicate ArpAddressMatch(link: LinkType, dir: DirTag, ty: PrimType, packet: Bytes)
    requires (ty.Host? || ty.Net?) && PrefixInRange(ty) && ty.addr.V4?
  {
    !link.Raw? && Net4At(packet, ArpAddressAt(link, dir), ty.addr.v4 as nat, PrefixLength(ty))
  }

  predicate IPv6AddressMatch(link: LinkType, dir: DirTag, ty: PrimType, packet: Bytes)
    requires (ty.Host? || ty.Net?) && PrefixInRange(ty) && ty.addr.V6?
  {
    Net6At(packet, IPv6AddressAt(link, dir), ty.addr.v6 as nat, PrefixLength(ty))
  }

  predicate PortMatch(link: LinkType, num: nat, dir: DirTag, ty: PrimType, packet: Bytes)
    requires ty.Port? || ty.PortRange?
  {
    var lo, hi := if ty.Port? then ty.port as nat else ty.lo as nat, if ty.Port? then ty.port as nat else ty.hi as nat;
    IPv4PortMatch(link, num, dir, lo, hi, packet) || IPv6PortMatch(link, num, dir, lo, hi, packet)
  }

  /** The protocol words that go with a type: the others are refused. */
  predicate Combines(proto: Option<ProtoTag>, ty: PrimType) {
    match proto
    case None => true
    case Some(tag) =>
      if ty.Port? || ty.PortRange? then tag.TcpTag? || tag.UdpTag?
      else if ty.addr.V6? then tag.Ip6Tag?
      else !tag.Ip6Tag?
  }

  /** What a primitive with this protocol word, or none, asks in one direction. */
  predicate WrittenMatch(proto: Option<ProtoTag>, dir: DirTag, ty: PrimType, link: LinkType, packet: Bytes)
    requires PrefixInRange(ty) && Combines(proto, ty)
  {
    if ty.Port? || ty.PortRange? then
      match proto
      case Some(TcpTag) => PortMatch(link, 6, dir, ty, packet)
      case Some(_) => PortMatch(link, 17, dir, ty, packet)
      case None =>
        || PortMatch(link, 6, dir, ty, packet)
        || PortMatch(link, 17, dir, ty, packet)
        || PortMatch(link, 132, dir, ty, packet)
    else if ty.addr.V6? then IsIPv6(link, packet) && IPv6AddressMatch(link, dir, ty, packet)
    else
      match proto
      case Some(TcpTag) => IsTransport4(link, 6, packet) && IPv4AddressMatch(link, dir, ty, packet)
      case Some(UdpTag) => IsTransport4(link, 17, packet) && IPv4AddressMatch(link, dir, ty, packet)
      case Some(IcmpTag) => IsTransport4(link, 1, packet) && IPv4AddressMatch(link, dir, ty, packet)
      case Some(ArpTag) => IsArp(link, packet) && ArpAddressMatch(link, dir, ty, packet)
      case Some(_) => IsIPv4(link, packet) && IPv4AddressMatch(link, dir, ty, packet)
      case None =>
        || (IsIPv4(link, packet) && IPv4AddressMatch(link, dir, ty, packet))
        || (IsArp(link, packet) && ArpAddressMatch(link, dir, ty, packet))
        || (IsRarp(link, packet) && ArpAddressMatch(link, dir, ty, packet))
  }

  lemma CarriesArp(link: LinkType, packet: Bytes)
    ensures M.Carries(link, M.ARP, packet).Yes? <==> IsArp(link, packet)
    ensures M.Carries(link, M.RARP, packet).Yes? <==> IsRarp(link, packet)
  {
  }

  lemma Net4Field(packet: Bytes, o: nat, addr: nat, prefix: nat)
    requires prefix <= 32
    ensures M.InNetwork4(packet, o, addr, prefix).Yes? <==> Net4At(packet, o, addr, prefix)
  {
  }

  lemma Net6Field(packet: Bytes, o: nat, addr: nat, prefix: nat)
    requires prefix <= 128
    ensures M.InNetwork6(packet, o, 4, addr, prefix).Yes? <==> Net6At(packet, o, addr, prefix)
  {
    var k := M.WordsReached(prefix);
    if prefix > 0 {
      assert (prefix + 31) / 32 * 4 == 4 * k && 8 * (4 * k) == 32 * k;
      if o + 4 * k <= |packet| {
        assert packet[o..][..4 * k] == packet[o..o + 4 * k];
      }
    }
  }

  /** An IPv4 address of a family with or without a transport. */
  lemma Address4InHeaders(p: CompiledPrimitive, link: LinkType, packet: Bytes)
    requires (p.ty.Host? || p.ty.Net?) && PrefixInRange(p.ty) && p.ty.addr.V4? && !p.proto.Ip6?
    ensures M.LeafMeaning(p, link, packet).Yes? <==>
            M.Carries(link, M.FamilyOf(p.proto), packet).Yes? &&
            (M.TransportOf(p.proto).Some? ==>
              M.ProtocolIs(link, M.FamilyOf(p.proto), M.TransportOf(p.proto).value, packet).Yes?) &&
            Net4At(packet, L3Info(link).ipBase + M.AddressAt(M.FamilyOf(p.proto), p.dir), p.ty.addr.v4 as nat,
                   PrefixLength(p.ty))
  {
    Net4Field(packet, L3Info(link).ipBase + M.AddressAt(M.FamilyOf(p.proto), p.dir), p.ty.addr.v4 as nat,
              M.PrefixOf(p.ty));
  }

  /** A leaf in header fields: the table of the protocols the compiler knows. */
  predicate LeafMatch(proto: CompiledProto, dir: DirTag, ty: PrimType, link: LinkType, packet: Bytes)
    requires PrefixInRange(ty)
  {
    if ty.Port? || ty.PortRange? then
      match proto
      case Tcp => PortMatch(link, 6, dir, ty, packet)
      case Udp => PortMatch(link, 17, dir, ty, packet)
      case Sctp => PortMatch(link, 132, dir, ty, packet)
      case _ => false
    else if ty.addr.V6? then proto.Ip6? && IsIPv6(link, packet) && IPv6AddressMatch(link, dir, ty, packet)
    else
      match proto
      case Ip => IsIPv4(link, packet) && IPv4AddressMatch(link, dir, ty, packet)
      case Tcp => IsTransport4(link, 6, packet) && IPv4AddressMatch(link, dir, ty, packet)
      case Udp => IsTransport4(link, 17, packet) && IPv4AddressMatch(link, dir, ty, packet)
      case Icmp => IsTransport4(link, 1, packet) && IPv4AddressMatch(link, dir, ty, packet)
      case Arp => IsArp(link, packet) && ArpAddressMatch(link, dir, ty, packet)
      case Rarp => IsRarp(link, packet) && ArpAddressMatch(link, dir, ty, packet)
      case _ => false
  }

  /** Every leaf whose protocol and type go together asks exactly that, on every packet of every link layer. */
  lemma LeafInHeaders(p: CompiledPrimitive, link: LinkType, packet: Bytes)
    requires PrefixInRange(p.ty) && LeafMismatch(p, Ethernet).None?
    ensures M.LeafMeaning(p, link, packet).Yes? <==> LeafMatch(p.proto, p.dir, p.ty, link, packet)
  {
    if p.ty.Port? || p.ty.PortRange? {
      PortLeafInHeaders(p, link, packet);
    } else if p.ty.addr.V4? {
      Address4LeafInHeaders(p, link, packet);
    } else {
      Address6LeafInHeaders(p, link, packet);
    }
  }

  lemma PortLeafInHeaders(p: CompiledPrimitive, link: LinkType, packet: Bytes)
    requires (p.ty.Port? || p.ty.PortRange?) && LeafMismatch(p, Ethernet).None?
    ensures M.LeafMeaning(p, link, packet).Yes? <==> LeafMatch(p.proto, p.dir, p.ty, link, packet)
  {
    var lo, hi := if p.ty.Port? then p.ty.port as nat else p.ty.lo as nat,
                  if p.ty.Port? then p.ty.port as nat else p.ty.hi as nat;
    PortInHeaders(p, lo, hi, M.TransportOf(p.proto).value, link, packet);
  }

  lemma Address4LeafInHeaders(p: CompiledPrimitive, link: LinkType, packet: Bytes)
    requires (p.ty.Host? || p.ty.Net?) && p.ty.addr.V4? && PrefixInRange(p.ty) && LeafMismatch(p, Ethernet).None?
    ensures M.LeafMeaning(p, link, packet).Yes? <==> LeafMatch(p.proto, p.dir, p.ty, link, packet)
  {
    Address4InHeaders(p, link, packet);
    CarriesIP(link, packet);
    CarriesArp(link, packet);
  }

  lemma Address6LeafInHeaders(p: CompiledPrimitive, link: LinkType, packet: Bytes)
    requires (p.ty.Host? || p.ty.Net?) && p.ty.addr.V6? && PrefixInRange(p.ty) && LeafMismatch(p, Ethernet).None?
    ensures M.LeafMeaning(p, link, packet).Yes? <==> LeafMatch(p.proto, p.dir, p.ty, link, packet)
  {
    CarriesIP(link, packet);
    Net6Field(packet, L3Info(link).ipBase + M.AddressAt(M.IPv6, p.dir), p.ty.addr.v6 as nat, M.PrefixOf(p.ty));
  }

  // ----- what is written, in header fields -----

  /** The directions a primitive may stand for. */
  predicate MayFace(p: Primitive, dir: DirTag) {
    p.dir.Some? ==> dir == p.dir.value
  }

  ghost predicate AsksFor(p: Primitive, link: LinkType, packet: Bytes)
    requires PrefixInRange(p.ty) && Combines(p.proto, p.ty)
  {
    exists dir :: MayFace(p, dir) && WrittenMatch(p.proto, dir, p.ty, link, packet)
  }

  /** A choice matches only what is asked for. */
  lemma ChoiceIsAsked(p: Primitive, c: CompiledPrimitive, link: LinkType, packet: Bytes)
    requires PrefixInRange(p.ty) && Combines(p.proto, p.ty) && Covers(p, c)
    ensures LeafMismatch(c, Ethernet).None?
    ensures LeafMatch(c.proto, c.dir, c.ty, link, packet) ==> WrittenMatch(p.proto, c.dir, p.ty, link, packet)
    ensures p.proto.Some? ==>
              (LeafMatch(c.proto, c.dir, c.ty, link, packet) <==> WrittenMatch(p.proto, c.dir, p.ty, link, packet))
  {
  }

  /** Any other protocol word makes every choice one that is refused, on every link layer. */
  lemma OthersRefused(p: Primitive, c: CompiledPrimitive, link: LinkType)
    requires PrefixInRange(p.ty) && !Combines(p.proto, p.ty) && Covers(p, c)
    ensures LeafMismatch(c, link).Some?
  {
  }

  /** And what is asked for is matched by some choice. */
  lemma AskedIsChosen(p: Primitive, dir: DirTag, link: LinkType, packet: Bytes) returns (c: CompiledPrimitive)
    requires PrefixInRange(p.ty) && Combines(p.proto, p.ty) && MayFace(p, dir)
    requires WrittenMatch(p.proto, dir, p.ty, link, packet)
    ensures Covers(p, c) && LeafMatch(c.proto, c.dir, c.ty, link, packet)
  {
    var proto :=
      if p.proto.Some? then ProtoOf(p.proto.value)
      else if p.ty.Port? || p.ty.PortRange? then
        (if PortMatch(link, 6, dir, p.ty, packet) then Tcp
         else if PortMatch(link, 17, dir, p.ty, packet) then Udp
         else Sctp)
      else if p.ty.addr.V6? then Ip6
      else if IsIPv4(link, packet) && IPv4AddressMatch(link, dir, p.ty, packet) then Ip
      else if IsArp(link, packet) && ArpAddressMatch(link, dir, p.ty, packet) then Arp
      else Rarp;
    c := CompiledPrimitive(proto, dir, p.ty, p.at);
  }

  /** With its protocol and its direction written, a primitive asks for exactly these fields of the frame, on every
      packet, however short. */
  lemma WrittenInHeaders(p: Primitive, link: LinkType, packet: Bytes)
    requires PrefixInRange(p.ty) && Combines(p.proto, p.ty) && p.proto.Some? && p.dir.Some?
    ensures SourceMeaning(PrimExpr(p), link, packet).Yes? <==>
            WrittenMatch(p.proto, p.dir.value, p.ty, link, packet)
  {
    var c := CompiledPrimitive(ProtoOf(p.proto.value), p.dir.value, p.ty, p.at);
    OnlyChoice(p);
    ChoiceIsAsked(p, c, link, packet);
    LeafInHeaders(c, link, packet);
    ChoicesInRange(p);
    var answers := Answers(Choices(p), link, packet);
    assert |answers| == 1 && answers[0] == M.LeafMeaning(c, link, packet) && answers[1..] == [];
    assert SourceMeaning(PrimExpr(p), link, packet) == answers[0].OrElse(FirstOf([]));
  }

  lemma OnlyChoice(p: Primitive)
    requires p.proto.Some? && p.dir.Some?
    ensures Choices(p) == [CompiledPrimitive(ProtoOf(p.proto.value), p.dir.value, p.ty, p.at)]
  {
    var proto := ProtoOf(p.proto.value);
    assert Protos(p) == [proto] && [proto][..0] == [];
    assert Product(p, [proto], Dirs(p)) == Product(p, [], Dirs(p)) + Row(p, proto, Dirs(p));
  }

  /** On a packet long enough to settle everything, a primitive with anything left out asks whether some direction
      and some protocol it may stand for has them. */
  lemma AskedInHeaders(p: Primitive, link: LinkType, packet: Bytes)
    requires PrefixInRange(p.ty) && Combines(p.proto, p.ty) && LongEnough(link, packet)
    ensures SourceMeaning(PrimExpr(p), link, packet).Yes? <==> AsksFor(p, link, packet)
  {
    PrimitiveIsAnyChoice(p, link, packet);
    if c :| Covers(p, c) && M.LeafMeaning(c, link, packet).Yes? {
      ChoiceIsAsked(p, c, link, packet);
      LeafInHeaders(c, link, packet);
      assert MayFace(p, c.dir);
    }
    if dir :| MayFace(p, dir) && WrittenMatch(p.proto, dir, p.ty, link, packet) {
      var c := AskedIsChosen(p, dir, link, packet);
      ChoiceIsAsked(p, c, link, packet);
      LeafInHeaders(c, link, packet);
    }
  }

  /** So the compiled program of a primitive with its protocol and its direction accepts exactly the packets with
      these fields. */
  lemma WrittenProgram(p: Primitive, link: LinkType, snaplen: u32, packet: Bytes)
    requires PrefixInRange(p.ty) && Combines(p.proto, p.ty) && p.proto.Some? && p.dir.Some? && snaplen != 0
    requires InRange(Expanded(PrimExpr(p))) && FitsAssembler(Expanded(PrimExpr(p)), link)
    requires CompiledExpr(Expanded(PrimExpr(p)), link, snaplen).Ok?
    ensures Status(Ending(CompiledExpr(Expanded(PrimExpr(p)), link, snaplen).value, packet)) ==
            if WrittenMatch(p.proto, p.dir.value, p.ty, link, packet) then snaplen else 0
  {
    SourcePreservation(PrimExpr(p), link, snaplen, packet);
    WrittenInHeaders(p, link, packet);
  }

  // ----- whole filters -----

  /** The six bytes at `o` are this hardware address. */
  predicate MacAt(packet: Bytes, o: nat, mac: MacAddr) {
    o + 6 <= |packet| && packet[o..o + 6] == mac
  }

  predicate EtherMatch(kind: EtherKind, packet: Bytes) {
    match kind
    case EtherHost(mac, Some(Src)) => MacAt(packet, 6, mac)
    case EtherHost(mac, Some(Dst)) => MacAt(packet, 0, mac)
    case EtherHost(mac, None) => MacAt(packet, 0, mac) || MacAt(packet, 6, mac)
    case EtherProto(ethertype) => Has(packet, 12, 2, ethertype as nat)
    case Broadcast => MacAt(packet, 0, [0xff, 0xff, 0xff, 0xff, 0xff, 0xff])
    case Multicast => packet != [] && packet[0] % 2 == 1
  }

  /** Every primitive goes with its protocol word, and the link layer is asked about on Ethernet only. */
  predicate Sensible(e: Expr, link: LinkType) {
    match e
    case PrimExpr(p) => PrefixInRange(p.ty) && Combines(p.proto, p.ty)
    case EtherExpr(_) => link.Ethernet?
    case NotExpr(inner, _) => Sensible(inner, link)
    case AndExpr(l, r, _) => Sensible(l, link) && Sensible(r, link)
    case OrExpr(l, r, _) => Sensible(l, link) && Sensible(r, link)
  }

  /** What a filter asks, its connectives those of logic. */
  ghost predicate Asks(e: Expr, link: LinkType, packet: Bytes)
    requires Sensible(e, link)
  {
    match e
    case PrimExpr(p) => AsksFor(p, link, packet)
    case EtherExpr(ether) => EtherMatch(ether.kind, packet)
    case NotExpr(inner, _) => !Asks(inner, link, packet)
    case AndExpr(l, r, _) => Asks(l, link, packet) && Asks(r, link, packet)
    case OrExpr(l, r, _) => Asks(l, link, packet) || Asks(r, link, packet)
  }

  lemma {:induction false} BigEndianTells(s: Bytes, t: Bytes)
    requires |s| == |t|
    ensures BigEndian(s) == BigEndian(t) <==> s == t
  {
    if s != [] {
      var n := |s| - 1;
      BigEndianTells(s[..n], t[..n]);
      assert s == s[..n] + [s[n]] && t == t[..n] + [t[n]];
    }
  }

  lemma MacTells(packet: Bytes, o: nat, mac: MacAddr)
    ensures M.MacIs(packet, o, mac).Yes? <==> MacAt(packet, o, mac)
    ensures o + 6 <= |packet| ==> !M.MacIs(packet, o, mac).Unknown?
  {
    if o + 6 <= |packet| {
      BigEndianTells(packet[o..o + 4], mac[..4]);
      BigEndianTells(packet[o + 4..o + 6], mac[4..]);
      assert packet[o..o + 6] == packet[o..o + 4] + packet[o + 4..o + 6];
      assert mac == mac[..4] + mac[4..];
    }
  }

  lemma EtherInHeaders(kind: EtherKind, packet: Bytes)
    requires |packet| >= 14
    ensures M.EtherMeaning(kind, packet) == if EtherMatch(kind, packet) then M.Yes else M.No
  {
    match kind
    case EtherHost(mac, _) =>
      MacTells(packet, 0, mac);
      MacTells(packet, 6, mac);
    case Broadcast =>
      MacTells(packet, 0, [0xff, 0xff, 0xff, 0xff, 0xff, 0xff]);
    case EtherProto(_) =>
    case Multicast =>
      assert packet[0..1] == [packet[0]] && [packet[0]][..0] == [];
      assert BigEndian([packet[0]]) == packet[0] as nat;
      Pow2Values();
  }

  lemma PrimitiveSettled(p: Primitive, link: LinkType, packet: Bytes)
    requires PrefixInRange(p.ty) && LongEnough(link, packet)
    ensures !SourceMeaning(PrimExpr(p), link, packet).Unknown?
  {
    ChoicesInRange(p);
    NeverUnknown(Choices(p), link, packet);
    FirstOfInOrder(Answers(Choices(p), link, packet));
  }

  /** On a packet long enough to settle everything, a filter means what it asks, no less and no more. */
  lemma {:induction false} MeansWhatItAsks(e: Expr, link: LinkType, packet: Bytes)
    requires InSourceRange(e) && Sensible(e, link) && LongEnough(link, packet)
    ensures SourceMeaning(e, link, packet) == if Asks(e, link, packet) then M.Yes else M.No
    decreases e
  {
    match e
    case PrimExpr(p) =>
      AskedInHeaders(p, link, packet);
      PrimitiveSettled(p, link, packet);
    case EtherExpr(ether) =>
      EtherInHeaders(ether.kind, packet);
    case NotExpr(inner, _) =>
      MeansWhatItAsks(inner, link, packet);
    case AndExpr(l, r, _) =>
      MeansWhatItAsks(l, link, packet);
      MeansWhatItAsks(r, link, packet);
    case OrExpr(l, r, _) =>
      MeansWhatItAsks(l, link, packet);
      MeansWhatItAsks(r, link, packet);
  }

  // ----- what compiles is sensible -----

  lemma {:induction false} FoldChecksFirst(leaves: seq<ExpandedExpr>, link: LinkType)
    requires leaves != [] && InRange(OrOf(leaves)) && CondOf(OrOf(leaves), link).Ok?
    requires forall i :: 0 <= i < |leaves| ==> leaves[i].Leaf?
    ensures InRange(leaves[0]) && CondOf(leaves[0], link).Ok?
    decreases |leaves|
  {
    if |leaves| > 1 {
      var before, last := leaves[..|leaves| - 1], leaves[|leaves| - 1];
      var e := OrOf(leaves);
      assert e == Or(OrOf(before), last);
      if IsDirPair(OrOf(before), last) {
        PairChecksFirst(OrOf(before), last, link);
      } else {
        BinaryErrors(e, link);
      }
      FoldChecksFirst(before, link);
    }
  }

  lemma PairChecksFirst(l: ExpandedExpr, r: ExpandedExpr, link: LinkType)
    requires InRange(Or(l, r)) && IsDirPair(l, r) && CondOf(Or(l, r), link).Ok?
    ensures InRange(l) && CondOf(l, link).Ok?
  {
    assert InRange(l);
    PrimFails(l.prim, Some(r.prim.dir), link);
    PrimFails(l.prim, None, link);
  }

  lemma PrimitiveIsSensible(p: Primitive, link: LinkType)
    requires PrefixInRange(p.ty) && InRange(ExpandedPrimitive(p)) && CondOf(ExpandedPrimitive(p), link).Ok?
    ensures Combines(p.proto, p.ty)
  {
    ProductNonempty(p, Protos(p), Dirs(p));
    var c := Choices(p)[0];
    FoldChecksFirst(AsLeaves(Choices(p)), link);
    ChoicesCover(p, c);
    PrimFails(c, None, link);
    if !Combines(p.proto, p.ty) {
      OthersRefused(p, c, link);
    }
  }

  /** Only a sensible filter gets through the generator. */
  lemma {:induction false} CompiledIsSensible(e: Expr, link: LinkType)
    requires InSourceRange(e) && InRange(Expanded(e)) && CondOf(Expanded(e), link).Ok?
    ensures Sensible(e, link)
    decreases e
  {
    match e
    case PrimExpr(p) =>
      PrimitiveIsSensible(p, link);
    case EtherExpr(_) =>
    case NotExpr(inner, _) =>
      CompiledIsSensible(inner, link);
    case AndExpr(l, r, _) =>
      BinaryErrors(Expanded(e), link);
      CompiledIsSensible(l, link);
      CompiledIsSensible(r, link);
    case OrExpr(l, r, _) =>
      if IsDirPair(Expanded(l), Expanded(r)) {
        var x, y := Expanded(l), Expanded(r);
        assert InRange(x) && InRange(y);
        PairChecksFirst(x, y, link);
        PrimFails(x.prim, None, link);
        PrimFails(y.prim, None, link);
        assert LeafMismatch(x.prim, link) == LeafMismatch(y.prim, link);
      } else {
        BinaryErrors(Expanded(e), link);
      }
      CompiledIsSensible(l, link);
      CompiledIsSensible(r, link);
  }

  /** The compiled program of any filter accepts a packet long enough to settle everything if and only if the packet
      has what the filter asks for. */
  lemma AcceptsWhatItAsks(e: Expr, link: LinkType, snaplen: u32, packet: Bytes)
    requires InSourceRange(e) && InRange(Expanded(e)) && FitsAssembler(Expanded(e), link) && LongEnough(link, packet)
    requires CompiledExpr(Expanded(e), link, snaplen).Ok?
    ensures Sensible(e, link)
    ensures Status(Ending(CompiledExpr(Expanded(e), link, snaplen).value, packet)) ==
            if Asks(e, link, packet) then snaplen else 0
  {
    CompiledIsSensible(e, link);
    SourcePreservation(e, link, snaplen, packet);
    MeansWhatItAsks(e, link, packet);
  }
}
