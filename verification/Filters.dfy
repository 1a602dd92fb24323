/** The decision each primitive compiles to: the gates, loads and comparisons of the code generator, in
    its order and with its constants, as combinations of tests. */
module Filters {
  import opened Words
  import opened Errors
  import opened Ast
  import opened LinkType
  import opened Irep
  import opened Decision

  const ETH_TYPE_IP: u32 := 0x0800
  const ETH_TYPE_ARP: u32 := 0x0806
  const ETH_TYPE_RARP: u32 := 0x8035
  const ETH_TYPE_IPV6: u32 := 0x86dd

  const IP_PROTO_ICMP: u32 := 1
  const IP_PROTO_TCP: u32 := 6
  const IP_PROTO_UDP: u32 := 17
  const IP_PROTO_SCTP: u32 := 132

  const IP_FLAGS_FRAG_OFFSET: u32 := 6
  const IP_PROTO_OFFSET: u32 := 9
  const IP_SRC_OFFSET: u32 := 12
  const IP_DST_OFFSET: u32 := 16
  const FRAG_MASK: u32 := 0x1fff

  const IP6_SRC_OFFSET: u32 := 8
  const IP6_DST_OFFSET: u32 := 24
  const IP6_NEXTHDR_OFFSET: u32 := 6
  const IP6_HEADER_LEN: u32 := 40

  const ARP_SENDER_PA_OFFSET: u32 := 14
  const ARP_TARGET_PA_OFFSET: u32 := 24

  const ETH_DST_MAC_OFFSET: u32 := 0
  const ETH_SRC_MAC_OFFSET: u32 := 6
  const ETH_MAC_BROADCAST: MacAddr := [0xff, 0xff, 0xff, 0xff, 0xff, 0xff]

  const PORT_SRC_REL: u32 := 0
  const PORT_DST_REL: u32 := 2

  // ----- gates -----

  /** `body` decided only once every gate, in order, has let the packet through. */
  function Guarded(gates: seq<Cond>, body: Cond): Cond {
    if gates == [] then body else Both(gates[0], Guarded(gates[1..], body))
  }

  /** The network-layer gate: the ethertype field, or the version nibble where there is none. */
  function L3Gate(link: LinkType, ethertype: u32, at: Span): Cond {
    var info := L3Info(link);
    match info.ethertypeOffset
    case Some(field) => Test([LdhAbs(field)], Eq, ethertype, at)
    case None => Test([LdbAbs(info.ipBase), AndK(0xf0)], Eq, if ethertype == ETH_TYPE_IP then 0x40 else 0x60, at)
  }

  function ByteGate(link: LinkType, field: u8, value: u32, at: Span): Cond {
    Test([LdbAbs(L3Info(link).ipBase + field)], Eq, value, at)
  }

  function Gates(link: LinkType, ethertype: u32, protoField: u8, ipProto: Option<u32>, at: Span): seq<Cond> {
    match ipProto
    case Some(num) => [L3Gate(link, ethertype, at), ByteGate(link, protoField, num, at)]
    case None => [L3Gate(link, ethertype, at)]
  }

  function NotFragmentGate(link: LinkType, at: Span): Cond {
    Negate(Test([LdhAbs(L3Info(link).ipBase + IP_FLAGS_FRAG_OFFSET)], Set, FRAG_MASK, at))
  }

  // ----- addresses -----

  datatype AddrGates = AddrGates(ethertype: u32, ipProto: Option<u32>, srcOffset: u8, dstOffset: u8)

  function AddrGatesOf(proto: CompiledProto, at: Span): Result<AddrGates, CompileError> {
    match proto
    case Ip => Ok(AddrGates(ETH_TYPE_IP, None, IP_SRC_OFFSET, IP_DST_OFFSET))
    case Tcp => Ok(AddrGates(ETH_TYPE_IP, Some(IP_PROTO_TCP), IP_SRC_OFFSET, IP_DST_OFFSET))
    case Udp => Ok(AddrGates(ETH_TYPE_IP, Some(IP_PROTO_UDP), IP_SRC_OFFSET, IP_DST_OFFSET))
    case Icmp => Ok(AddrGates(ETH_TYPE_IP, Some(IP_PROTO_ICMP), IP_SRC_OFFSET, IP_DST_OFFSET))
    case Arp => Ok(AddrGates(ETH_TYPE_ARP, None, ARP_SENDER_PA_OFFSET, ARP_TARGET_PA_OFFSET))
    case Rarp => Ok(AddrGates(ETH_TYPE_RARP, None, ARP_SENDER_PA_OFFSET, ARP_TARGET_PA_OFFSET))
    case Ip6 => Err(CompileError(at, InvalidPrimitiveCombination(Ip6NeedsIp6Address)))
    case Sctp => Err(CompileError(at, InvalidPrimitiveCombination(SctpHasNoAddresses)))
  }

  const IP6_GATES: AddrGates := AddrGates(ETH_TYPE_IPV6, None, IP6_SRC_OFFSET, IP6_DST_OFFSET)

  /** ARP and RARP are told apart by their ethertype alone, so they need a framing that has one. */
  function EnsureEthertypeAvailable(ethField: Option<u32>, gates: AddrGates, at: Span): Result<(), CompileError> {
    if ethField.None? && (gates.ethertype == ETH_TYPE_ARP || gates.ethertype == ETH_TYPE_RARP) then
      Err(CompileError(at, InvalidPrimitiveCombination(NoEthertypeField)))
    else Ok(())
  }

  function Step(gates: AddrGates, dir: DirTag): u8 {
    match dir
    case Src => gates.srcOffset
    case Dst => gates.dstOffset
  }

  /** A `u32` shifted left by `n`, the bits beyond the word dropped. */
  function Shl32(v: u32, n: nat): u32 {
    v * Pow2(n) % 0x1_0000_0000
  }

  function Netmask(prefix: u8): u32
    requires prefix <= 32
  {
    if prefix == 0 then 0 else Shl32(0xffff_ffff, 32 - prefix)
  }

  function Masking(mask: u32): seq<IrOp2> {
    if mask == 0xffff_ffff then [] else [AndK(mask)]
  }

  function AddrTest(link: LinkType, step: u8, mask: Option<u32>, target: u32, at: Span): Cond {
    var load := [LdwAbs(L3Info(link).ipBase + step)];
    match mask
    case Some(m) => Test(load + Masking(m), Eq, target, at)
    case None => Test(load, Eq, target, at)
  }

  /** Word `i` of an IPv6 address, counted from the most significant end. */
  function AddrWord(addr: u128, i: nat): u32
    requires i < 4
  {
    addr / Pow2(96 - 32 * i) % 0x1_0000_0000
  }

  /** The mask of the bits of word `i` that a prefix reaches. */
  function WordMask(prefix: nat, i: nat): u32
    requires 32 * i < prefix <= 128
  {
    Netmask(if prefix - 32 * i < 32 then prefix - 32 * i else 32)
  }

  function WordsOf(prefix: nat): nat {
    (prefix + 31) / 32
  }

  function Addr6WordTest(link: LinkType, step: u8, addr: u128, prefix: nat, i: nat, at: Span): Cond
    requires 32 * i < prefix <= 128
  {
    var mask := WordMask(prefix, i);
    Test([LdwAbs(L3Info(link).ipBase + step + 4 * i)] + Masking(mask), Eq, BitAnd(AddrWord(addr, i), mask), at)
  }

  /** The words of an IPv6 address from word `i` to the last one the prefix reaches. */
  function Addr6From(link: LinkType, step: u8, addr: u128, prefix: nat, i: nat, at: Span): Cond
    requires 32 * i < prefix <= 128
    decreases prefix - 32 * i
  {
    var word := Addr6WordTest(link, step, addr, prefix, i, at);
    if i == WordsOf(prefix) - 1 then word
    else Both(word, Addr6From(link, step, addr, prefix, i + 1, at))
  }

  function Addr6Test(link: LinkType, step: u8, addr: u128, prefix: nat, at: Span): Cond
    requires prefix <= 128
  {
    if prefix == 0 then Always(at) else Addr6From(link, step, addr, prefix, 0, at)
  }

  /** One direction, or a first direction and then another. */
  function InTurn(first: Cond, second: Option<Cond>): Cond {
    match second
    case None => first
    case Some(c) => Either(first, c)
  }

  function Addr4Cond(p: CompiledPrimitive, second: Option<DirTag>, link: LinkType, addr: u32, prefix: Option<u8>)
    : Result<Cond, CompileError>
    requires prefix.Some? ==> prefix.value <= 32
  {
    var gates :- AddrGatesOf(p.proto, p.at);
    var _ :- EnsureEthertypeAvailable(L3Info(link).ethertypeOffset, gates, p.at);
    var mask := if prefix.Some? then Some(Netmask(prefix.value)) else None;
    var target := if mask.Some? then BitAnd(addr, mask.value) else addr;
    Ok(Guarded(Gates(link, gates.ethertype, IP_PROTO_OFFSET, gates.ipProto, p.at),
               InTurn(AddrTest(link, Step(gates, p.dir), mask, target, p.at),
                      if second.Some? then Some(AddrTest(link, Step(gates, second.value), mask, target, p.at))
                      else None)))
  }

  function Addr6Cond(p: CompiledPrimitive, second: Option<DirTag>, link: LinkType, addr: u128, prefix: Option<u8>)
    : Result<Cond, CompileError>
    requires prefix.Some? ==> prefix.value <= 128
  {
    if p.proto != Ip6 then Err(CompileError(p.at, InvalidPrimitiveCombination(Ip6AddressNeedsIp6)))
    else
      var bits := if prefix.Some? then prefix.value else 128;
      Ok(Guarded(Gates(link, ETH_TYPE_IPV6, IP6_NEXTHDR_OFFSET, None, p.at),
                 InTurn(Addr6Test(link, Step(IP6_GATES, p.dir), addr, bits, p.at),
                        if second.Some? then Some(Addr6Test(link, Step(IP6_GATES, second.value), addr, bits, p.at))
                        else None)))
  }

  function AddrCond(p: CompiledPrimitive, second: Option<DirTag>, link: LinkType, addr: AddrLit, prefix: Option<u8>)
    : Result<Cond, CompileError>
    requires prefix.Some? ==> prefix.value as int <= (if addr.V4? then 32 else 128)
  {
    match addr
    case V4(a) => Addr4Cond(p, second, link, a, prefix)
    case V6(a) => Addr6Cond(p, second, link, a, prefix)
  }

  // ----- ports -----

  function PortProtoNum(proto: CompiledProto, at: Span): Result<u32, CompileError> {
    match proto
    case Tcp => Ok(IP_PROTO_TCP)
    case Udp => Ok(IP_PROTO_UDP)
    case Sctp => Ok(IP_PROTO_SCTP)
    case _ => Err(CompileError(at, InvalidPrimitiveCombination(PortNeedsTransport)))
  }

  function PortRel(dir: DirTag): u8 {
    match dir
    case Src => PORT_SRC_REL
    case Dst => PORT_DST_REL
  }

  /** A loaded port compared with `lo..=hi`; the upper comparison reuses the accumulator. */
  function PortCompare(pre: seq<IrOp2>, lo: u16, hi: u16, at: Span): Cond {
    if lo == hi then Test(pre, Eq, lo, at)
    else Both(Test(pre, Ge, lo, at), Negate(Test([], Gt, hi, at)))
  }

  function Port4Load(link: LinkType, dir: DirTag): IrOp2 {
    LdhInd(L3Info(link).ipBase + PortRel(dir))
  }

  function Port6Load(link: LinkType, dir: DirTag): IrOp2 {
    LdhAbs(L3Info(link).ipBase + IP6_HEADER_LEN + PortRel(dir))
  }

  /** The IPv4 attempt. The header length is loaded into X once, before the first direction. */
  function Port4Cond(link: LinkType, num: u32, dir: DirTag, second: Option<DirTag>, lo: u16, hi: u16, at: Span): Cond {
    Guarded(Gates(link, ETH_TYPE_IP, IP_PROTO_OFFSET, Some(num), at) + [NotFragmentGate(link, at)],
            InTurn(PortCompare([LdxMsh(L3Info(link).ipBase), Port4Load(link, dir)], lo, hi, at),
                   if second.Some? then Some(PortCompare([Port4Load(link, second.value)], lo, hi, at)) else None))
  }

  function Port6Cond(link: LinkType, num: u32, dir: DirTag, second: Option<DirTag>, lo: u16, hi: u16, at: Span): Cond {
    Guarded(Gates(link, ETH_TYPE_IPV6, IP6_NEXTHDR_OFFSET, Some(num), at),
            InTurn(PortCompare([Port6Load(link, dir)], lo, hi, at),
                   if second.Some? then Some(PortCompare([Port6Load(link, second.value)], lo, hi, at)) else None))
  }

  function PortCond(p: CompiledPrimitive, second: Option<DirTag>, link: LinkType, lo: u16,
        hi: u16): Result<Cond, CompileError> {
    var num :- PortProtoNum(p.proto, p.at);
    Ok(Either(Port4Cond(link, num, p.dir, second, lo, hi, p.at), Port6Cond(link, num, p.dir, second, lo, hi, p.at)))
  }

  // ----- the link layer -----

  function MacHigh(mac: MacAddr): u32 {
    ((mac[0] as int * 0x100 + mac[1] as int) * 0x100 + mac[2] as int) * 0x100 + mac[3] as int
  }

  function MacLow(mac: MacAddr): u32 {
    mac[4] as int * 0x100 + mac[5] as int
  }

  function MacTest(field: u8, mac: MacAddr, at: Span): Cond {
    Both(Test([LdwAbs(field)], Eq, MacHigh(mac), at), Test([LdhAbs(field + 4)], Eq, MacLow(mac), at))
  }

  function EtherCond(e: EtherPrimitive, link: LinkType): Result<Cond, CompileError> {
    if link != Ethernet then Err(CompileError(e.at, InvalidPrimitiveCombination(NoMacPair)))
    else
      match e.kind
      case EtherHost(mac, Some(Src)) => Ok(MacTest(ETH_SRC_MAC_OFFSET, mac, e.at))
      case EtherHost(mac, Some(Dst)) => Ok(MacTest(ETH_DST_MAC_OFFSET, mac, e.at))
      case EtherHost(mac, None) => Ok(Either(MacTest(ETH_DST_MAC_OFFSET, mac, e.at),
                                             MacTest(ETH_SRC_MAC_OFFSET, mac, e.at)))
      case EtherProto(ethertype) => Ok(Test([LdhAbs(L3Info(link).ethertypeOffset.value)], Eq, ethertype, e.at))
      case Broadcast => Ok(MacTest(ETH_DST_MAC_OFFSET, ETH_MAC_BROADCAST, e.at))
      case Multicast => Ok(Test([LdbAbs(ETH_DST_MAC_OFFSET)], Set, 0x01, e.at))
  }

  // ----- expressions -----

  predicate DiffersOnlyInDir(p1: CompiledPrimitive, p2: CompiledPrimitive) {
    p1.proto == p2.proto && p1.dir != p2.dir && p1.ty == p2.ty
  }

  /** The two leaves of an `or` that share their prologue. */
  predicate IsDirPair(l: ExpandedExpr, r: ExpandedExpr) {
    l.Leaf? && r.Leaf? && DiffersOnlyInDir(l.prim, r.prim)
  }

  function FullPrefix(addr: AddrLit): u8 {
    if addr.V4? then 32 else 128
  }

  /** A primitive, or with `second` a source/destination pair sharing its gates. */
  function PrimCond(p: CompiledPrimitive, second: Option<DirTag>, link: LinkType): Result<Cond, CompileError>
    requires PrefixInRange(p.ty)
  {
    match p.ty
    case Host(addr) => AddrCond(p, second, link, addr, None)
    case Net(addr, prefix) => AddrCond(p, second, link, addr,
                                       Some(if prefix.Some? then prefix.value else FullPrefix(addr)))
    case Port(port) => PortCond(p, second, link, port, port)
    case PortRange(lo, hi) => PortCond(p, second, link, lo, hi)
  }

  function CondOf(e: ExpandedExpr, link: LinkType): Result<Cond, CompileError>
    requires InRange(e)
  {
    match e
    case Leaf(p) => PrimCond(p, None, link)
    case EtherLeaf(ether) => EtherCond(ether, link)
    case Not(inner) =>
      var c :- CondOf(inner, link);
      Ok(Negate(c))
    case And(l, r) =>
      var cl :- CondOf(l, link);
      var cr :- CondOf(r, link);
      Ok(Both(cl, cr))
    case Or(l, r) =>
      if IsDirPair(l, r) then
        assert InRange(l);
        PrimCond(l.prim, Some(r.prim.dir), link)
      else
        var cl :- CondOf(l, link);
        var cr :- CondOf(r, link);
        Ok(Either(cl, cr))
  }
}
