/** Where in the text an error points: a parse error at or behind the token it was met at, and whatever the
    generator or the assembler refuses at one of the primitives that were written. */
module ErrorSpans {
  import opened Words
  import opened Errors
  import opened Ast
  import opened LinkType
  import opened Irep
  import opened Decision
  import opened Filters
  import opened Codegen
  import opened Compiler
  import opened CodeSize
  import opened Reach
  import opened Rejections
  import opened Desugar
  import opened Literals
  import opened Lexer
  import opened LexErrors
  import opened Parser
  import opened ParserProofs
  import opened Frontend

  // ----- from decisions to leaves -----

  /** Every test of the decision comes from one of these places. */
  predicate ComesFrom(c: Cond, places: set<Span>) {
    match c
    case Test(_, _, _, at) => at in places
    case Always(at) => at in places
    case Negate(inner) => ComesFrom(inner, places)
    case Both(l, r) => ComesFrom(l, places) && ComesFrom(r, places)
    case Either(l, r) => ComesFrom(l, places) && ComesFrom(r, places)
  }

  lemma {:induction false} JumpComesFrom(c: Cond, places: set<Span>, base: nat, toTrue: nat, toFalse: nat, bound: nat)
    requires ComesFrom(c, places)
    ensures var first := FirstLonger(c, base, toTrue, toFalse, bound); first.Some? ==> first.value.at in places
  {
    match c
    case Test(_, _, _, _) =>
    case Always(_) =>
    case Negate(inner) =>
      JumpComesFrom(inner, places, base, toFalse, toTrue, bound);
    case Both(l, r) =>
      JumpComesFrom(l, places, base, 0, Cost(r) + toFalse, bound);
      JumpComesFrom(r, places, base + Cost(l), toTrue, toFalse, bound);
    case Either(l, r) =>
      JumpComesFrom(l, places, base, Cost(r) + toTrue, 0, bound);
      JumpComesFrom(r, places, base + Cost(l), toTrue, toFalse, bound);
  }

  lemma {:induction false} ComesFromMore(c: Cond, places: set<Span>, more: set<Span>)
    requires ComesFrom(c, places) && places <= more
    ensures ComesFrom(c, more)
  {
    match c
    case Test(_, _, _, _) =>
    case Always(_) =>
    case Negate(inner) =>
      ComesFromMore(inner, places, more);
    case Both(l, r) =>
      ComesFromMore(l, places, more);
      ComesFromMore(r, places, more);
    case Either(l, r) =>
      ComesFromMore(l, places, more);
      ComesFromMore(r, places, more);
  }

  lemma {:induction false} GuardedComesFrom(gates: seq<Cond>, body: Cond, places: set<Span>)
    requires ComesFrom(body, places) && forall i :: 0 <= i < |gates| ==> ComesFrom(gates[i], places)
    ensures ComesFrom(Guarded(gates, body), places)
  {
    if gates != [] {
      GuardedComesFrom(gates[1..], body, places);
    }
  }

  lemma {:induction false} Addr6ComesFrom(link: LinkType, step: u8, addr: u128, prefix: nat, i: nat, at: Span)
    requires 32 * i < prefix <= 128
    ensures ComesFrom(Addr6From(link, step, addr, prefix, i, at), {at})
    decreases prefix - 32 * i
  {
    if i != WordsOf(prefix) - 1 {
      Addr6ComesFrom(link, step, addr, prefix, i + 1, at);
    }
  }

  lemma AddrComesFrom(p: CompiledPrimitive, second: Option<DirTag>, link: LinkType, addr: AddrLit, prefix: Option<u8>)
    requires prefix.Some? ==> prefix.value as int <= if addr.V4? then 32 else 128
    requires AddrCond(p, second, link, addr, prefix).Ok?
    ensures ComesFrom(AddrCond(p, second, link, addr, prefix).value, {p.at})
  {
    var dir2 := if second.Some? then second.value else p.dir;
    match addr
    case V4(a) =>
      var gates := AddrGatesOf(p.proto, p.at).value;
      var mask := if prefix.Some? then Some(Netmask(prefix.value)) else None;
      var target := if mask.Some? then BitAnd(a, mask.value) else a;
      GuardedComesFrom(Gates(link, gates.ethertype, IP_PROTO_OFFSET, gates.ipProto, p.at),
                       InTurn(AddrTest(link, Step(gates, p.dir), mask, target, p.at),
                              if second.Some? then Some(AddrTest(link, Step(gates, dir2), mask, target, p.at))
                              else None), {p.at});
    case V6(a) =>
      var bits := if prefix.Some? then prefix.value else 128;
      if bits > 0 {
        Addr6ComesFrom(link, Step(IP6_GATES, p.dir), a, bits, 0, p.at);
        Addr6ComesFrom(link, Step(IP6_GATES, dir2), a, bits, 0, p.at);
      }
      GuardedComesFrom(Gates(link, ETH_TYPE_IPV6, IP6_NEXTHDR_OFFSET, None, p.at),
                       InTurn(Addr6Test(link, Step(IP6_GATES, p.dir), a, bits, p.at),
                              if second.Some? then Some(Addr6Test(link, Step(IP6_GATES, dir2), a, bits, p.at))
                              else None), {p.at});
  }

  lemma PortComesFrom(p: CompiledPrimitive, second: Option<DirTag>, link: LinkType, lo: u16, hi: u16)
    requires PortCond(p, second, link, lo, hi).Ok?
    ensures ComesFrom(PortCond(p, second, link, lo, hi).value, {p.at})
  {
    var num := PortProtoNum(p.proto, p.at).value;
    Port4ComesFrom(link, num, p.dir, second, lo, hi, p.at);
    Port6ComesFrom(link, num, p.dir, second, lo, hi, p.at);
  }

  lemma CompareComesFrom(pre: seq<IrOp2>, lo: u16, hi: u16, at: Span)
    ensures ComesFrom(PortCompare(pre, lo, hi, at), {at})
  {
    assert ComesFrom(Negate(Test([], Gt, hi, at)), {at});
  }

  lemma Port4ComesFrom(link: LinkType, num: u32, dir: DirTag, second: Option<DirTag>, lo: u16, hi: u16, at: Span)
    ensures ComesFrom(Port4Cond(link, num, dir, second, lo, hi, at), {at})
  {
    var first := PortCompare([LdxMsh(L3Info(link).ipBase), Port4Load(link, dir)], lo, hi, at);
    var next := if second.Some? then Some(PortCompare([Port4Load(link, second.value)], lo, hi, at)) else None;
    CompareComesFrom([LdxMsh(L3Info(link).ipBase), Port4Load(link, dir)], lo, hi, at);
    if second.Some? {
      CompareComesFrom([Port4Load(link, second.value)], lo, hi, at);
    }
    GuardedComesFrom(Gates(link, ETH_TYPE_IP, IP_PROTO_OFFSET, Some(num), at) + [NotFragmentGate(link, at)],
                     InTurn(first, next), {at});
  }

  lemma Port6ComesFrom(link: LinkType, num: u32, dir: DirTag, second: Option<DirTag>, lo: u16, hi: u16, at: Span)
    ensures ComesFrom(Port6Cond(link, num, dir, second, lo, hi, at), {at})
  {
    var first := PortCompare([Port6Load(link, dir)], lo, hi, at);
    var next := if second.Some? then Some(PortCompare([Port6Load(link, second.value)], lo, hi, at)) else None;
    CompareComesFrom([Port6Load(link, dir)], lo, hi, at);
    if second.Some? {
      CompareComesFrom([Port6Load(link, second.value)], lo, hi, at);
    }
    GuardedComesFrom(Gates(link, ETH_TYPE_IPV6, IP6_NEXTHDR_OFFSET, Some(num), at), InTurn(first, next), {at});
  }

  lemma PrimComesFrom(p: CompiledPrimitive, second: Option<DirTag>, link: LinkType)
    requires PrefixInRange(p.ty) && PrimCond(p, second, link).Ok?
    ensures ComesFrom(PrimCond(p, second, link).value, {p.at})
  {
    match p.ty
    case Host(addr) => AddrComesFrom(p, second, link, addr, None);
    case Net(addr, prefix) =>
      AddrComesFrom(p, second, link, addr, Some(if prefix.Some? then prefix.value else FullPrefix(addr)));
    case Port(port) => PortComesFrom(p, second, link, port, port);
    case PortRange(lo, hi) => PortComesFrom(p, second, link, lo, hi);
  }

  // ----- from leaves to what was written -----

  /** The places the leaves of an expression come from. */
  function LeafSpans(e: ExpandedExpr): set<Span> {
    match e
    case Leaf(p) => {p.at}
    case EtherLeaf(ether) => {ether.at}
    case Not(inner) => LeafSpans(inner)
    case And(l, r) => LeafSpans(l) + LeafSpans(r)
    case Or(l, r) => LeafSpans(l) + LeafSpans(r)
  }

  /** Every test of an expression's decision is one of some leaf. */
  lemma {:induction false} CondComesFrom(e: ExpandedExpr, link: LinkType)
    requires InRange(e) && CondOf(e, link).Ok?
    ensures ComesFrom(CondOf(e, link).value, LeafSpans(e))
    decreases e
  {
    match e
    case Leaf(p) =>
      PrimComesFrom(p, None, link);
    case EtherLeaf(ether) =>
    case Not(inner) =>
      CondComesFrom(inner, link);
    case And(l, r) =>
      SidesComeFrom(e, l, r, link);
    case Or(l, r) =>
      if IsDirPair(l, r) {
        PairComesFrom(l, r, link);
      } else {
        SidesComeFrom(e, l, r, link);
      }
  }

  lemma PairComesFrom(l: ExpandedExpr, r: ExpandedExpr, link: LinkType)
    requires InRange(Or(l, r)) && IsDirPair(l, r) && CondOf(Or(l, r), link).Ok?
    ensures ComesFrom(CondOf(Or(l, r), link).value, LeafSpans(Or(l, r)))
  {
    assert InRange(l);
    PrimComesFrom(l.prim, Some(r.prim.dir), link);
    assert l.prim.at in LeafSpans(l) && LeafSpans(l) <= LeafSpans(Or(l, r));
    ComesFromMore(CondOf(Or(l, r), link).value, {l.prim.at}, LeafSpans(Or(l, r)));
  }

  lemma {:induction false} SidesComeFrom(e: ExpandedExpr, l: ExpandedExpr, r: ExpandedExpr, link: LinkType)
    requires InRange(e) && (e == And(l, r) || (e == Or(l, r) && !IsDirPair(l, r))) && CondOf(e, link).Ok?
    ensures ComesFrom(CondOf(e, link).value, LeafSpans(e))
    decreases e, 0
  {
    BinaryErrors(e, link);
    CondComesFrom(l, link);
    CondComesFrom(r, link);
    ComesFromMore(CondOf(l, link).value, LeafSpans(l), LeafSpans(e));
    ComesFromMore(CondOf(r, link).value, LeafSpans(r), LeafSpans(e));
  }

  lemma {:induction false} LeavesHaveSpans(e: ExpandedExpr, link: LinkType)
    ensures forall i :: 0 <= i < |Rejections.Leaves(e)| && LeafError(Rejections.Leaves(e)[i], link).Some? ==>
              LeafError(Rejections.Leaves(e)[i], link).value.at in LeafSpans(e)
    decreases e
  {
    match e
    case Leaf(_) =>
    case EtherLeaf(_) =>
    case Not(inner) => LeavesHaveSpans(inner, link);
    case And(l, r) =>
      LeavesHaveSpans(l, link);
      LeavesHaveSpans(r, link);
    case Or(l, r) =>
      LeavesHaveSpans(l, link);
      LeavesHaveSpans(r, link);
  }

  /** Whatever makes an expression fail to compile, the error points at one of its leaves. */
  lemma ErrorInLeaf(e: ExpandedExpr, link: LinkType, snaplen: u32)
    requires InRange(e) && FitsAssembler(e, link) && CompiledExpr(e, link, snaplen).Err?
    ensures CompiledExpr(e, link, snaplen).error.at in LeafSpans(e)
  {
    CompileFailsExactly(e, link, snaplen);
    if NoError(Rejections.Leaves(e), link) {
      CondComesFrom(e, link);
      JumpComesFrom(CondOf(e, link).value, LeafSpans(e), 0, 0, 1, 255);
    } else {
      LeavesHaveSpans(e, link);
    }
  }

  /** The places of the primitives an expression is written with. */
  function PrimitiveSpans(e: Expr): set<Span> {
    match e
    case PrimExpr(p) => {p.at}
    case EtherExpr(ether) => {ether.at}
    case NotExpr(inner, _) => PrimitiveSpans(inner)
    case AndExpr(l, r, _) => PrimitiveSpans(l) + PrimitiveSpans(r)
    case OrExpr(l, r, _) => PrimitiveSpans(l) + PrimitiveSpans(r)
  }

  lemma {:induction false} FoldSpans(leaves: seq<ExpandedExpr>, at: Span)
    requires leaves != [] && forall i :: 0 <= i < |leaves| ==> LeafSpans(leaves[i]) == {at}
    ensures LeafSpans(OrOf(leaves)) == {at}
  {
    if |leaves| > 1 {
      FoldSpans(leaves[..|leaves| - 1], at);
    }
  }

  /** Expansion keeps them. */
  lemma {:induction false} ExpandedSpans(e: Expr)
    ensures LeafSpans(Expanded(e)) == PrimitiveSpans(e)
  {
    match e
    case PrimExpr(p) =>
      ProductNonempty(p, Protos(p), Dirs(p));
      forall i | 0 <= i < |Choices(p)| ensures LeafSpans(AsLeaves(Choices(p))[i]) == {p.at} {
        assert Choices(p)[i] in Choices(p);
        ChoicesCover(p, Choices(p)[i]);
      }
      FoldSpans(AsLeaves(Choices(p)), p.at);
    case EtherExpr(_) =>
    case NotExpr(inner, _) =>
      ExpandedSpans(inner);
    case AndExpr(l, r, _) =>
      ExpandedSpans(l);
      ExpandedSpans(r);
    case OrExpr(l, r, _) =>
      ExpandedSpans(l);
      ExpandedSpans(r);
  }

  /** They lie within the expression. */
  lemma {:induction false} PrimitivesInside(e: Expr)
    requires Nested(e)
    ensures ExprSpan(e).start < ExprSpan(e).end
    ensures forall at :: at in PrimitiveSpans(e) ==> ExprSpan(e).start <= at.start < at.end <= ExprSpan(e).end
  {
    match e
    case PrimExpr(_) =>
    case EtherExpr(_) =>
    case NotExpr(inner, _) =>
      PrimitivesInside(inner);
    case AndExpr(l, r, _) =>
      PrimitivesInside(l);
      PrimitivesInside(r);
    case OrExpr(l, r, _) =>
      PrimitivesInside(l);
      PrimitivesInside(r);
  }

  // ----- the whole -----

  /** When what was written parses, an error points at one of its primitives. */
  lemma ErrorAtPrimitive(src: string, link: LinkType, snaplen: u32, ip6: Ipv6Notation)
    requires TextFits(src, link, ip6) && ParsedText(src, ip6).Ok? && CompiledText(src, link, snaplen, ip6).Err?
    ensures CompiledText(src, link, snaplen, ip6).error.at in PrimitiveSpans(ParsedText(src, ip6).value)
  {
    var e := ParsedText(src, ip6).value;
    ParsedTextInRange(src, ip6);
    ExpandedInRange(e);
    ErrorInLeaf(Expanded(e), link, snaplen);
    ExpandedSpans(e);
  }

  /** What is parsed, or else the error, lies within the tokens. */
  lemma TokensHold(s: Input, end: nat)
    requires s.Valid() && InOrder(s.tokens, 0, end)
    ensures match ParsedAll(s)
            case Ok(e) => Nested(e) && ExprSpan(e).end <= end
            case Err(error) => error.at.start <= error.at.end <= end
  {
    assert s.tokens[|s.tokens| - 1].at.end == end;
    if ParsedAll(s).Ok? {
      ParsedIsSound(s);
    } else {
      ParseErrorInside(s);
    }
  }

  lemma TextHolds(src: string, ip6: Ipv6Notation)
    ensures match ParsedText(src, ip6)
            case Ok(e) => Nested(e) && ExprSpan(e).end <= ByteAt(src, |src|)
            case Err(error) => error.at.start <= error.at.end <= ByteAt(src, |src|)
  {
    match LexFrom(src, 0)
    case Ok(tokens) =>
      LexInOrder(src, 0);
      TokensHold(Input(tokens, ip6), ByteAt(src, |src|));
    case Err(_) =>
      OffenceInside(src);
  }

  /** Whatever is wrong with a text, the error points into it. */
  lemma ErrorInText(src: string, link: LinkType, snaplen: u32, ip6: Ipv6Notation)
    requires TextFits(src, link, ip6) && CompiledText(src, link, snaplen, ip6).Err?
    ensures var at := CompiledText(src, link, snaplen, ip6).error.at; at.start <= at.end <= ByteAt(src, |src|)
  {
    TextHolds(src, ip6);
    if ParsedText(src, ip6).Ok? {
      ErrorAtPrimitive(src, link, snaplen, ip6);
      PrimitivesInside(ParsedText(src, ip6).value);
    }
  }
}
