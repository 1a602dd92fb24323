/** The filter expression as parsed, and as expanded for the code generator. */
module Ast {
  import opened Words
  import opened Errors

  datatype ProtoTag = IpTag | Ip6Tag | ArpTag | TcpTag | UdpTag | IcmpTag
  datatype DirTag = Src | Dst

  /** An address as one big-endian integer: the top bits are the network prefix. */
  datatype AddrLit = V4(v4: u32) | V6(v6: u128)

  datatype PrimType =
    | Host(addr: AddrLit)
    | Net(addr: AddrLit, prefix: Option<u8>)
    | Port(port: u16)
    | PortRange(lo: u16, hi: u16)

  datatype Primitive = Primitive(proto: Option<ProtoTag>, dir: Option<DirTag>, ty: PrimType, at: Span)

  /** Six octets in wire order. */
  type MacAddr = m: seq<u8> | |m| == 6 witness [0, 0, 0, 0, 0, 0]

  datatype EtherKind =
    | EtherHost(mac: MacAddr, dir: Option<DirTag>)
    | EtherProto(ethertype: u16)
    | Broadcast
    | Multicast

  datatype EtherPrimitive = EtherPrimitive(kind: EtherKind, at: Span)

  datatype Expr =
    | PrimExpr(prim: Primitive)
    | EtherExpr(ether: EtherPrimitive)
    | NotExpr(inner: Expr, at: Span)
    | AndExpr(left: Expr, right: Expr, at: Span)
    | OrExpr(left: Expr, right: Expr, at: Span)

  datatype CompiledProto = Ip | Ip6 | Arp | Rarp | Tcp | Udp | Icmp | Sctp

  /** A primitive whose protocol and direction are both settled. */
  datatype CompiledPrimitive = CompiledPrimitive(proto: CompiledProto, dir: DirTag, ty: PrimType, at: Span)

  datatype ExpandedExpr =
    | Leaf(prim: CompiledPrimitive)
    | EtherLeaf(ether: EtherPrimitive)
    | Not(inner: ExpandedExpr)
    | And(left: ExpandedExpr, right: ExpandedExpr)
    | Or(left: ExpandedExpr, right: ExpandedExpr)

  /** The range the parser enforces on a literal's prefix length: at most the width of its address. */
  predicate PrefixInRange(ty: PrimType) {
    ty.Net? && ty.prefix.Some? ==> ty.prefix.value as int <= (if ty.addr.V4? then 32 else 128)
  }

  predicate InRange(e: ExpandedExpr) {
    match e
    case Leaf(p) => PrefixInRange(p.ty)
    case EtherLeaf(_) => true
    case Not(inner) => InRange(inner)
    case And(l, r) => InRange(l) && InRange(r)
    case Or(l, r) => InRange(l) && InRange(r)
  }
}
