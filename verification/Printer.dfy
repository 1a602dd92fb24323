/** Expressions written out as tokens, with parentheses only where precedence asks for them, and the
    texts of their literals. */
module Printer {
  import opened Words
  import opened Errors
  import opened Ast
  import opened Lexer
  import opened Literals

  // ----- literals -----

  function DigitChar(d: nat): char
    requires d < 16
  {
    if d < 10 then ('0' as nat + d) as char else ('a' as nat + (d - 10)) as char
  }

  function Dec(n: nat): string {
    if n < 10 then [DigitChar(n)] else Dec(n / 10) + [DigitChar(n % 10)]
  }

  function HexPair(b: u8): string {
    [DigitChar(b / 16), DigitChar(b % 16)]
  }

  function Join(parts: seq<string>, sep: char): string
    requires parts != []
  {
    if |parts| == 1 then parts[0] else parts[0] + [sep] + Join(parts[1..], sep)
  }

  function OctetsOf(a: u32): seq<u8> {
    [OctetOf(a, 0), OctetOf(a, 1), OctetOf(a, 2), OctetOf(a, 3)]
  }

  function DecAll(octets: seq<u8>): seq<string> {
    seq(|octets|, i requires 0 <= i < |octets| => Dec(octets[i]))
  }

  function HexAll(octets: seq<u8>): seq<string> {
    seq(|octets|, i requires 0 <= i < |octets| => HexPair(octets[i]))
  }

  function Dotted(a: u32): string {
    Join(DecAll(OctetsOf(a)), '.')
  }

  function MacText(mac: MacAddr): string {
    Join(HexAll(mac), ':')
  }

  function AddrText(addr: AddrLit, ip6: Ipv6Notation): string {
    match addr
    case V4(a) => Dotted(a)
    case V6(a) => ip6.write(a)
  }

  function NetText(addr: AddrLit, prefix: Option<u8>, ip6: Ipv6Notation): string {
    match prefix
    case Some(n) => AddrText(addr, ip6) + "/" + Dec(n)
    case None => AddrText(addr, ip6)
  }

  // ----- leaves -----

  function ProtoText(tag: ProtoTag): string {
    match tag
    case IpTag => "ip"
    case Ip6Tag => "ip6"
    case ArpTag => "arp"
    case TcpTag => "tcp"
    case UdpTag => "udp"
    case IcmpTag => "icmp"
  }

  function DirText(dir: DirTag): string {
    match dir
    case Src => "src"
    case Dst => "dst"
  }

  function TypeTags(ty: PrimType, ip6: Ipv6Notation): seq<TokenTag> {
    match ty
    case Host(addr) => [Word("host"), Word(AddrText(addr, ip6))]
    case Net(addr, prefix) => [Word("net"), Word(NetText(addr, prefix, ip6))]
    case Port(port) => [Word("port"), Word(Dec(port))]
    case PortRange(lo, hi) => [Word("portrange"), Word(Dec(lo)), Dash, Word(Dec(hi))]
  }

  function ProtoTags(proto: Option<ProtoTag>): seq<TokenTag> {
    match proto
    case Some(tag) => [Word(ProtoText(tag))]
    case None => []
  }

  function DirTags(dir: Option<DirTag>): seq<TokenTag> {
    match dir
    case Some(d) => [Word(DirText(d))]
    case None => []
  }

  function PrimitiveTags(p: Primitive, ip6: Ipv6Notation): seq<TokenTag> {
    ProtoTags(p.proto) + DirTags(p.dir) + TypeTags(p.ty, ip6)
  }

  function EtherTags(kind: EtherKind): seq<TokenTag> {
    match kind
    case EtherHost(mac, None) => [Word("ether"), Word("host"), Word(MacText(mac))]
    case EtherHost(mac, Some(dir)) => [Word("ether"), Word(DirText(dir)), Word(MacText(mac))]
    case EtherProto(ethertype) => [Word("ether"), Word("proto"), Word(Dec(ethertype))]
    case Broadcast => [Word("broadcast")]
    case Multicast => [Word("multicast")]
  }

  // ----- expressions -----

  /** How tightly the outermost connective binds: `or` least, then `and`, then `not`. */
  function Precedence(e: Expr): nat {
    match e
    case OrExpr(_, _, _) => 0
    case AndExpr(_, _, _) => 1
    case _ => 2
  }

  /** The expression where operands of precedence `level` are expected. */
  function Print(e: Expr, level: nat, ip6: Ipv6Notation): seq<TokenTag>
    decreases e, 1
  {
    if Precedence(e) >= level then Bare(e, ip6) else [LParen] + Bare(e, ip6) + [RParen]
  }

  function Bare(e: Expr, ip6: Ipv6Notation): seq<TokenTag>
    decreases e, 0
  {
    match e
    case PrimExpr(p) => PrimitiveTags(p, ip6)
    case EtherExpr(ether) => EtherTags(ether.kind)
    case NotExpr(inner, _) => [Word("not")] + Print(inner, 2, ip6)
    case AndExpr(l, r, _) => Print(l, 1, ip6) + [Word("and")] + Print(r, 2, ip6)
    case OrExpr(l, r, _) => Print(l, 0, ip6) + [Word("or")] + Print(r, 1, ip6)
  }

  // ----- what can be written -----

  /** The expressions that are some text's: prefixes within their address, ranges in order. */
  predicate Writable(e: Expr) {
    match e
    case PrimExpr(p) => PrefixInRange(p.ty) && (p.ty.PortRange? ==> p.ty.lo <= p.ty.hi)
    case EtherExpr(_) => true
    case NotExpr(inner, _) => Writable(inner)
    case AndExpr(l, r, _) => Writable(l) && Writable(r)
    case OrExpr(l, r, _) => Writable(l) && Writable(r)
  }

  /** Every IPv6 address is written so that it is read back, in word characters, with a colon and without
      a slash. */
  ghost predicate WritesIpv6(ip6: Ipv6Notation) {
    forall a: u128 :: Ipv6Text(ip6.write(a)) && ip6.read(ip6.write(a)) == Some(a)
  }

  predicate Ipv6Text(text: string) {
    ':' in text && '/' !in text && forall i :: 0 <= i < |text| ==> IsWordChar(text[i])
  }

  /** The expression without its source spans. */
  function Stripped(e: Expr): Expr {
    var none := Span(0, 0);
    match e
    case PrimExpr(p) => PrimExpr(p.(at := none))
    case EtherExpr(ether) => EtherExpr(ether.(at := none))
    case NotExpr(inner, _) => NotExpr(Stripped(inner), none)
    case AndExpr(l, r, _) => AndExpr(Stripped(l), Stripped(r), none)
    case OrExpr(l, r, _) => OrExpr(Stripped(l), Stripped(r), none)
  }
}
