/** Tokens to expressions: the grammar as functions of the token sequence, and the recursive-descent
    parser that advances through it. */
module Parser {
  import opened Words
  import opened Errors
  import opened Ast
  import opened Lexer
  import opened Literals

  /** The tokens, and the notation for IPv6 addresses. */
  datatype Input = Input(tokens: seq<Token>, ip6: Ipv6Notation) {
    /** What the lexer hands over: an `Eof` stands last. */
    predicate Valid() {
      tokens != [] && tokens[|tokens| - 1].tag == Eof
    }
  }

  /** A result, and the position after what it was read from. */
  type Parsed<T> = Result<(T, nat), CompileError>

  const EXPECT_TYPE := "'host', 'net', 'port', or 'portrange'"
  const EXPECT_ETHER := "'host', 'src', 'dst', 'proto', 'broadcast', or 'multicast'"
  const EXPECT_END := "'and', 'or', or end of input"

  function ExprSpan(e: Expr): Span {
    match e
    case PrimExpr(p) => p.at
    case EtherExpr(e) => e.at
    case NotExpr(_, at) => at
    case AndExpr(_, _, at) => at
    case OrExpr(_, _, at) => at
  }

  function FoundText(t: Token): string {
    match t.tag
    case Word(w) => w
    case Dash => "-"
    case LParen => "("
    case RParen => ")"
    case Eof => "end of input"
  }

  // ----- the grammar -----

  predicate IsWord(s: Input, pos: nat, w: string)
    requires pos < |s.tokens|
  {
    s.tokens[pos].tag == Word(w)
  }

  function Unexpected(t: Token, expected: string): CompileError {
    CompileError(t.at, if t.tag.Eof? then UnexpectedEof(expected) else UnexpectedToken(expected, FoundText(t)))
  }

  function WordAt(s: Input, pos: nat, expected: string): (r: Parsed<(string, Span)>)
    requires s.Valid() && pos < |s.tokens|
    ensures r.Ok? ==> r.value.1 == pos + 1 < |s.tokens|
  {
    match s.tokens[pos].tag
    case Word(w) => Ok(((w, s.tokens[pos].at), pos + 1))
    case _ => Err(Unexpected(s.tokens[pos], expected))
  }

  function DashAt(s: Input, pos: nat): (r: Parsed<()>)
    requires s.Valid() && pos < |s.tokens|
    ensures r.Ok? ==> r.value.1 == pos + 1 < |s.tokens|
  {
    if s.tokens[pos].tag.Dash? then Ok(((), pos + 1)) else Err(Unexpected(s.tokens[pos], "'-' in a port range"))
  }

  function ProtoWord(tag: TokenTag): Option<ProtoTag> {
    match tag
    case Word(w) =>
      if w == "ip" then Some(IpTag)
      else if w == "ip6" then Some(Ip6Tag)
      else if w == "arp" then Some(ArpTag)
      else if w == "tcp" then Some(TcpTag)
      else if w == "udp" then Some(UdpTag)
      else if w == "icmp" then Some(IcmpTag)
      else None
    case _ => None
  }

  function DirWord(tag: TokenTag): Option<DirTag> {
    match tag
    case Word(w) => if w == "src" then Some(Src) else if w == "dst" then Some(Dst) else None
    case _ => None
  }

  /** The position after the token at `pos` if it was taken. */
  function Past(s: Input, pos: nat, taken: bool): (r: nat)
    requires s.Valid() && pos < |s.tokens| && (taken ==> s.tokens[pos].tag.Word?)
    ensures pos <= r < |s.tokens|
  {
    if taken then pos + 1 else pos
  }

  function HostAt(s: Input, pos: nat): (r: Parsed<PrimType>)
    requires s.Valid() && pos < |s.tokens|
    ensures r.Ok? ==> pos < r.value.1 < |s.tokens|
  {
    var (w, p) :- WordAt(s, pos, "an address");
    var a :- AddrLiteral(w.0, w.1, false, s.ip6);
    Ok((Host(a.0), p))
  }

  function NetAt(s: Input, pos: nat): (r: Parsed<PrimType>)
    requires s.Valid() && pos < |s.tokens|
    ensures r.Ok? ==> pos < r.value.1 < |s.tokens|
  {
    var (w, p) :- WordAt(s, pos, "a network address");
    var a :- AddrLiteral(w.0, w.1, true, s.ip6);
    Ok((Net(a.0, a.1), p))
  }

  function PortAt(s: Input, pos: nat): (r: Parsed<u16>)
    requires s.Valid() && pos < |s.tokens|
    ensures r.Ok? ==> r.value.1 == pos + 1 < |s.tokens|
  {
    var (w, p) :- WordAt(s, pos, "a port number");
    var port :- ParsePort(w.0, w.1);
    Ok((port, p))
  }

  function PortRangeAt(s: Input, start: nat, pos: nat): (r: Parsed<PrimType>)
    requires s.Valid() && pos < |s.tokens|
    ensures r.Ok? ==> pos < r.value.1 < |s.tokens|
  {
    var (lo, p1) :- PortAt(s, pos);
    var (_, p2) :- DashAt(s, p1);
    var (hi, p3) :- PortAt(s, p2);
    if lo > hi then Err(CompileError(Span(start, s.tokens[p2].at.end), InvalidPortRange(lo, hi)))
    else Ok((PortRange(lo, hi), p3))
  }

  function TypeAt(s: Input, start: nat, ty: string, tyAt: Span, pos: nat): (r: Parsed<PrimType>)
    requires s.Valid() && pos < |s.tokens|
    ensures r.Ok? ==> pos < r.value.1 < |s.tokens|
  {
    if ty == "host" then HostAt(s, pos)
    else if ty == "net" then NetAt(s, pos)
    else if ty == "port" then
      var (port, p) :- PortAt(s, pos);
      Ok((Port(port), p))
    else if ty == "portrange" then PortRangeAt(s, start, pos)
    else if ty == "rarp" || ty == "sctp" then Err(CompileError(tyAt, UnknownKeyword(ty)))
    else Err(CompileError(tyAt, UnexpectedToken(EXPECT_TYPE, ty)))
  }

  function PrimitiveAt(s: Input, pos: nat): (r: Parsed<Primitive>)
    requires s.Valid() && pos < |s.tokens|
    ensures r.Ok? ==> pos < r.value.1 < |s.tokens|
  {
    var start := s.tokens[pos].at.start;
    var proto := ProtoWord(s.tokens[pos].tag);
    var p1 := Past(s, pos, proto.Some?);
    var dir := DirWord(s.tokens[p1].tag);
    UnqualifiedAt(s, start, proto, dir, Past(s, p1, dir.Some?))
  }

  function UnqualifiedAt(s: Input, start: nat, proto: Option<ProtoTag>, dir: Option<DirTag>,
        pos: nat): (r: Parsed<Primitive>)
    requires s.Valid() && pos < |s.tokens|
    ensures r.Ok? ==> pos < r.value.1 < |s.tokens|
  {
    var (w, p) :- WordAt(s, pos, EXPECT_TYPE);
    Qualified(s, start, proto, dir, TypeAt(s, start, w.0, w.1, p))
  }

  function Qualified(s: Input, start: nat, proto: Option<ProtoTag>, dir: Option<DirTag>,
        ty: Parsed<PrimType>): (r: Parsed<Primitive>)
    requires ty.Ok? ==> 0 < ty.value.1 < |s.tokens|
    ensures r.Ok? <==> ty.Ok?
    ensures r.Ok? ==> r.value.1 == ty.value.1
  {
    var (ty, p) :- ty;
    Ok((Primitive(proto, dir, ty, Span(start, s.tokens[p - 1].at.end)), p))
  }

  function MacAt(s: Input, pos: nat, dir: Option<DirTag>): (r: Parsed<EtherKind>)
    requires s.Valid() && pos < |s.tokens|
    ensures r.Ok? ==> pos < r.value.1 < |s.tokens|
  {
    var (w, p) :- WordAt(s, pos, "a MAC address");
    var mac :- MacLiteral(w.0, w.1);
    Ok((EtherHost(mac, dir), p))
  }

  /** What may follow the word `ether`. */
  function EtherKindAt(s: Input, pos: nat): (r: Parsed<EtherKind>)
    requires s.Valid() && pos < |s.tokens|
    ensures r.Ok? ==> pos < r.value.1 < |s.tokens|
  {
    var (w, p) :- WordAt(s, pos, EXPECT_ETHER);
    if w.0 == "host" then MacAt(s, p, None)
    else if w.0 == "src" then MacAt(s, Past(s, p, IsWord(s, p, "host")), Some(Src))
    else if w.0 == "dst" then MacAt(s, Past(s, p, IsWord(s, p, "host")), Some(Dst))
    else if w.0 == "proto" then
      var (v, p1) :- WordAt(s, p, "an ethertype name or number");
      var ethertype :- ParseEthertype(v.0, v.1);
      Ok((EtherProto(ethertype), p1))
    else if w.0 == "broadcast" then Ok((Broadcast, p))
    else if w.0 == "multicast" then Ok((Multicast, p))
    else Err(CompileError(w.1, UnexpectedToken(EXPECT_ETHER, w.0)))
  }

  /** At the word `ether`, `broadcast` or `multicast`. */
  function EtherAt(s: Input, pos: nat): (r: Parsed<EtherPrimitive>)
    requires s.Valid() && pos < |s.tokens| && s.tokens[pos].tag.Word?
    ensures r.Ok? ==> pos < r.value.1 < |s.tokens|
  {
    var start := s.tokens[pos].at.start;
    if IsWord(s, pos, "broadcast") then Ok((EtherPrimitive(Broadcast, Span(start, s.tokens[pos].at.end)), pos + 1))
    else if IsWord(s, pos, "multicast") then Ok((EtherPrimitive(Multicast, Span(start, s.tokens[pos].at.end)), pos + 1))
    else
      var (kind, p) :- EtherKindAt(s, pos + 1);
      Ok((EtherPrimitive(kind, Span(start, s.tokens[p - 1].at.end)), p))
  }

  function OrAt(s: Input, pos: nat): (r: Parsed<Expr>)
    requires s.Valid() && pos < |s.tokens|
    ensures r.Ok? ==> pos < r.value.1 < |s.tokens|
    decreases |s.tokens| - pos, 5
  {
    var (lhs, p) :- AndAt(s, pos);
    OrTail(s, lhs, p)
  }

  /** Any further operands of an `or` whose left side has been read. */
  function OrTail(s: Input, lhs: Expr, pos: nat): (r: Parsed<Expr>)
    requires s.Valid() && pos < |s.tokens|
    ensures r.Ok? ==> pos <= r.value.1 < |s.tokens|
    decreases |s.tokens| - pos, 4
  {
    if IsWord(s, pos, "or") then
      var (rhs, p) :- AndAt(s, pos + 1);
      OrTail(s, OrExpr(lhs, rhs, Span(ExprSpan(lhs).start, ExprSpan(rhs).end)), p)
    else Ok((lhs, pos))
  }

  function AndAt(s: Input, pos: nat): (r: Parsed<Expr>)
    requires s.Valid() && pos < |s.tokens|
    ensures r.Ok? ==> pos < r.value.1 < |s.tokens|
    decreases |s.tokens| - pos, 3
  {
    var (lhs, p) :- UnaryAt(s, pos);
    AndTail(s, lhs, p)
  }

  function AndTail(s: Input, lhs: Expr, pos: nat): (r: Parsed<Expr>)
    requires s.Valid() && pos < |s.tokens|
    ensures r.Ok? ==> pos <= r.value.1 < |s.tokens|
    decreases |s.tokens| - pos, 2
  {
    if IsWord(s, pos, "and") then
      var (rhs, p) :- UnaryAt(s, pos + 1);
      AndTail(s, AndExpr(lhs, rhs, Span(ExprSpan(lhs).start, ExprSpan(rhs).end)), p)
    else Ok((lhs, pos))
  }

  function UnaryAt(s: Input, pos: nat): (r: Parsed<Expr>)
    requires s.Valid() && pos < |s.tokens|
    ensures r.Ok? ==> pos < r.value.1 < |s.tokens|
    decreases |s.tokens| - pos, 1
  {
    if IsWord(s, pos, "not") then
      var (inner, p) :- UnaryAt(s, pos + 1);
      Ok((NotExpr(inner, Span(s.tokens[pos].at.start, ExprSpan(inner).end)), p))
    else PrimaryAt(s, pos)
  }

  function PrimaryAt(s: Input, pos: nat): (r: Parsed<Expr>)
    requires s.Valid() && pos < |s.tokens|
    ensures r.Ok? ==> pos < r.value.1 < |s.tokens|
    decreases |s.tokens| - pos, 0
  {
    var t := s.tokens[pos];
    match t.tag
    case LParen =>
      var (inner, p) :- OrAt(s, pos + 1);
      if s.tokens[p].tag.RParen? then Ok((inner, p + 1))
      else Err(CompileError(s.tokens[p].at, UnbalancedParens))
    case RParen => Err(CompileError(t.at, UnbalancedParens))
    case Word(w) =>
      if w == "ether" || w == "broadcast" || w == "multicast" then
        var (e, p) :- EtherAt(s, pos);
        Ok((EtherExpr(e), p))
      else
        var (e, p) :- PrimitiveAt(s, pos);
        Ok((PrimExpr(e), p))
    case _ => Err(Unexpected(t, "an expression"))
  }

  function ParsedAll(s: Input): Result<Expr, CompileError>
    requires s.Valid()
  {
    if s.tokens[0].tag.Eof? then Err(CompileError(s.tokens[0].at, EmptyExpression))
    else
      var (e, p) :- OrAt(s, 0);
      if s.tokens[p].tag.Eof? then Ok(e)
      else Err(CompileError(s.tokens[p].at, UnexpectedToken(EXPECT_END, FoundText(s.tokens[p]))))
  }

  // ----- the parser -----

  class TokenParser {
    const input: Input
    var pos: nat

    ghost predicate Valid()
      reads this
    {
      input.Valid() && pos < |input.tokens|
    }

    constructor (tokens: seq<Token>, ip6: Ipv6Notation)
      requires tokens != [] && tokens[|tokens| - 1].tag == Eof
      ensures Valid() && input == Input(tokens, ip6) && pos == 0
    {
      input := Input(tokens, ip6);
      pos := 0;
    }

    /** The outcome is what the grammar reads at `from`, and the parser stands behind it. */
    ghost predicate Follows<T>(r: Result<T, CompileError>, spec: Parsed<T>)
      reads this
    {
      Valid() &&
      match spec
      case Ok(v) => r == Ok(v.0) && pos == v.1
      case Err(e) => r == Err(e)
    }

    function Peek(): Token
      requires Valid()
      reads this
    {
      input.tokens[pos]
    }

    method Advance() returns (t: Token)
      requires Valid()
      modifies this
      ensures Valid() && t == old(Peek())
      ensures pos == if old(pos) + 1 < |input.tokens| then old(pos) + 1 else old(pos)
    {
      t := input.tokens[pos];
      if pos + 1 < |input.tokens| {
        pos := pos + 1;
      }
    }

    predicate AtWord(w: string)
      requires Valid()
      reads this
    {
      Peek().tag == Word(w)
    }

    function ExpectEof(): Result<(), CompileError>
      requires Valid()
      reads this
    {
      if Peek().tag.Eof? then Ok(())
      else Err(CompileError(Peek().at, UnexpectedToken(EXPECT_END, FoundText(Peek()))))
    }

    method ExpectWord(expected: string) returns (r: Result<(string, Span), CompileError>)
      requires Valid()
      modifies this
      ensures Follows(r, WordAt(input, old(pos), expected))
    {
      match Peek().tag {
        case Word(w) =>
          var at := Peek().at;
          var _ := Advance();
          return Ok((w, at));
        case Eof =>
          return Err(CompileError(Peek().at, UnexpectedEof(expected)));
        case _ =>
          return Err(CompileError(Peek().at, UnexpectedToken(expected, FoundText(Peek()))));
      }
    }

    method ExpectDash() returns (r: Result<(), CompileError>)
      requires Valid()
      modifies this
      ensures Follows(r, DashAt(input, old(pos)))
    {
      match Peek().tag {
        case Dash =>
          var _ := Advance();
          return Ok(());
        case Eof =>
          return Err(CompileError(Peek().at, UnexpectedEof("'-' in a port range")));
        case _ =>
          return Err(CompileError(Peek().at, UnexpectedToken("'-' in a port range", FoundText(Peek()))));
      }
    }

    method TryParseProto() returns (r: Option<ProtoTag>)
      requires Valid()
      modifies this
      ensures Valid() && r == ProtoWord(old(Peek()).tag) && pos == Past(input, old(pos), r.Some?)
    {
      r := ProtoWord(Peek().tag);
      if r.Some? {
        var _ := Advance();
      }
    }

    method TryParseDir() returns (r: Option<DirTag>)
      requires Valid()
      modifies this
      ensures Valid() && r == DirWord(old(Peek()).tag) && pos == Past(input, old(pos), r.Some?)
    {
      r := DirWord(Peek().tag);
      if r.Some? {
        var _ := Advance();
      }
    }

    method TryConsumeWord(w: string) returns (taken: bool)
      requires Valid()
      modifies this
      ensures Valid() && taken == old(AtWord(w)) && pos == Past(input, old(pos), taken)
    {
      taken := AtWord(w);
      if taken {
        var _ := Advance();
      }
    }

    method ParseMac(dir: Option<DirTag>) returns (r: Result<EtherKind, CompileError>)
      requires Valid()
      modifies this
      ensures Follows(r, MacAt(input, old(pos), dir))
    {
      var w :- ExpectWord("a MAC address");
      var mac :- ParseMacLiteral(w.0, w.1);
      return Ok(EtherHost(mac, dir));
    }

    method ParseEtherKind() returns (r: Result<EtherKind, CompileError>)
      requires Valid()
      modifies this
      ensures Follows(r, EtherKindAt(input, old(pos)))
    {
      var w :- ExpectWord(EXPECT_ETHER);
      if w.0 == "host" {
        r := ParseMac(None);
      } else if w.0 == "src" {
        var _ := TryConsumeWord("host");
        r := ParseMac(Some(Src));
      } else if w.0 == "dst" {
        var _ := TryConsumeWord("host");
        r := ParseMac(Some(Dst));
      } else if w.0 == "proto" {
        var v :- ExpectWord("an ethertype name or number");
        var ethertype :- ParseEthertype(v.0, v.1);
        return Ok(EtherProto(ethertype));
      } else if w.0 == "broadcast" {
        return Ok(Broadcast);
      } else if w.0 == "multicast" {
        return Ok(Multicast);
      } else {
        return Err(CompileError(w.1, UnexpectedToken(EXPECT_ETHER, w.0)));
      }
    }

    method ParseEtherPrimitive() returns (r: Result<EtherPrimitive, CompileError>)
      requires Valid() && Peek().tag.Word?
      modifies this
      ensures Follows(r, EtherAt(input, old(pos)))
    {
      var start := Peek().at.start;
      if AtWord("broadcast") {
        var _ := Advance();
        return Ok(EtherPrimitive(Broadcast, Span(start, input.tokens[pos - 1].at.end)));
      }
      if AtWord("multicast") {
        var _ := Advance();
        return Ok(EtherPrimitive(Multicast, Span(start, input.tokens[pos - 1].at.end)));
      }
      var _ := Advance();
      var kind :- ParseEtherKind();
      return Ok(EtherPrimitive(kind, Span(start, input.tokens[pos - 1].at.end)));
    }

    method ParsePortNumber() returns (r: Result<u16, CompileError>)
      requires Valid()
      modifies this
      ensures Follows(r, PortAt(input, old(pos)))
    {
      var w :- ExpectWord("a port number");
      var port :- ParsePort(w.0, w.1);
      return Ok(port);
    }

    method ParsePortRange(start: nat) returns (r: Result<PrimType, CompileError>)
      requires Valid()
      modifies this
      ensures Follows(r, PortRangeAt(input, start, old(pos)))
    {
      var lo :- ParsePortNumber();
      var _ :- ExpectDash();
      var hiEnd := Peek().at.end;
      var hi :- ParsePortNumber();
      if lo > hi {
        return Err(CompileError(Span(start, hiEnd), InvalidPortRange(lo, hi)));
      }
      return Ok(PortRange(lo, hi));
    }

    method ParseType(start: nat, ty: string, tyAt: Span) returns (r: Result<PrimType, CompileError>)
      requires Valid()
      modifies this
      ensures Follows(r, TypeAt(input, start, ty, tyAt, old(pos)))
    {
      if ty == "host" {
        var w :- ExpectWord("an address");
        var a :- ParseAddrLiteral(w.0, w.1, false, input.ip6);
        return Ok(Host(a.0));
      } else if ty == "net" {
        var w :- ExpectWord("a network address");
        var a :- ParseAddrLiteral(w.0, w.1, true, input.ip6);
        return Ok(Net(a.0, a.1));
      } else if ty == "port" {
        var port :- ParsePortNumber();
        return Ok(Port(port));
      } else if ty == "portrange" {
        r := ParsePortRange(start);
      } else if ty == "rarp" || ty == "sctp" {
        return Err(CompileError(tyAt, UnknownKeyword(ty)));
      } else {
        return Err(CompileError(tyAt, UnexpectedToken(EXPECT_TYPE, ty)));
      }
    }

    method ParsePrimitive() returns (r: Result<Primitive, CompileError>)
      requires Valid()
      modifies this
      ensures Follows(r, PrimitiveAt(input, old(pos)))
    {
      var start := Peek().at.start;
      var proto := TryParseProto();
      var dir := TryParseDir();
      r := ParseUnqualified(start, proto, dir);
    }

    /** The type and the value of a primitive whose qualifiers have been read. */
    method ParseUnqualified(start: nat, proto: Option<ProtoTag>, dir: Option<DirTag>)
      returns (r: Result<Primitive, CompileError>)
      requires Valid()
      modifies this
      ensures Follows(r, UnqualifiedAt(input, start, proto, dir, old(pos)))
    {
      var w :- ExpectWord(EXPECT_TYPE);
      var ty :- ParseType(start, w.0, w.1);
      return Ok(Primitive(proto, dir, ty, Span(start, input.tokens[pos - 1].at.end)));
    }

    method ParseOr() returns (r: Result<Expr, CompileError>)
      requires Valid()
      modifies this
      ensures Follows(r, OrAt(input, old(pos)))
      decreases |input.tokens| - pos, 3
    {
      var lhs :- ParseAnd();
      while AtWord("or")
        invariant Valid() && old(pos) < pos
        invariant OrTail(input, lhs, pos) == OrAt(input, old(pos))
        decreases |input.tokens| - pos
      {
        var _ := Advance();
        var rhs :- ParseAnd();
        lhs := OrExpr(lhs, rhs, Span(ExprSpan(lhs).start, ExprSpan(rhs).end));
      }
      return Ok(lhs);
    }

    method ParseAnd() returns (r: Result<Expr, CompileError>)
      requires Valid()
      modifies this
      ensures Follows(r, AndAt(input, old(pos)))
      decreases |input.tokens| - pos, 2
    {
      var lhs :- ParseUnary();
      while AtWord("and")
        invariant Valid() && old(pos) < pos
        invariant AndTail(input, lhs, pos) == AndAt(input, old(pos))
        decreases |input.tokens| - pos
      {
        var _ := Advance();
        var rhs :- ParseUnary();
        lhs := AndExpr(lhs, rhs, Span(ExprSpan(lhs).start, ExprSpan(rhs).end));
      }
      return Ok(lhs);
    }

    method ParseUnary() returns (r: Result<Expr, CompileError>)
      requires Valid()
      modifies this
      ensures Follows(r, UnaryAt(input, old(pos)))
      decreases |input.tokens| - pos, 1
    {
      if AtWord("not") {
        var start := Peek().at.start;
        var _ := Advance();
        var inner :- ParseUnary();
        return Ok(NotExpr(inner, Span(start, ExprSpan(inner).end)));
      }
      r := ParsePrimary();
    }

    method ParsePrimary() returns (r: Result<Expr, CompileError>)
      requires Valid()
      modifies this
      ensures Follows(r, PrimaryAt(input, old(pos)))
      decreases |input.tokens| - pos, 0
    {
      match Peek().tag {
        case LParen =>
          var _ := Advance();
          var inner :- ParseOr();
          if !Peek().tag.RParen? {
            return Err(CompileError(Peek().at, UnbalancedParens));
          }
          var _ := Advance();
          return Ok(inner);
        case RParen =>
          return Err(CompileError(Peek().at, UnbalancedParens));
        case Word(w) =>
          if w == "ether" || w == "broadcast" || w == "multicast" {
            var e :- ParseEtherPrimitive();
            return Ok(EtherExpr(e));
          }
          var e :- ParsePrimitive();
          return Ok(PrimExpr(e));
        case Eof =>
          return Err(CompileError(Peek().at, UnexpectedEof("an expression")));
        case Dash =>
          return Err(CompileError(Peek().at, UnexpectedToken("an expression", FoundText(Peek()))));
      }
    }
  }

  method Parse(tokens: seq<Token>, ip6: Ipv6Notation) returns (r: Result<Expr, CompileError>)
    requires tokens != [] && tokens[|tokens| - 1].tag == Eof
    ensures r == ParsedAll(Input(tokens, ip6))
  {
    if tokens[0].tag.Eof? {
      return Err(CompileError(tokens[0].at, EmptyExpression));
    }
    var parser := new TokenParser(tokens, ip6);
    var e :- parser.ParseOr();
    var _ :- parser.ExpectEof();
    return Ok(e);
  }
}
