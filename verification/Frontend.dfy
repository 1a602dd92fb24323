/** The compiler as a whole: from the text of a filter to its program, and what that program decides. */
module Frontend {
  import opened Words
  import opened Errors
  import opened Ast
  import opened LinkType
  import Insn
  import opened Vm
  import opened Desugar
  import opened Literals
  import opened Lexer
  import opened Parser
  import opened ParserProofs
  import opened Printer
  import opened RoundTrip
  import opened Compiler
  import opened SourceSize
  import M = Meaning

  function ParsedText(src: string, ip6: Ipv6Notation): Result<Expr, CompileError> {
    var tokens :- LexFrom(src, 0);
    ParsedAll(Input(tokens, ip6))
  }

  /** What a text parses to is in range: its meaning is defined. */
  lemma ParsedTextInRange(src: string, ip6: Ipv6Notation)
    requires ParsedText(src, ip6).Ok?
    ensures Writable(ParsedText(src, ip6).value) && InSourceRange(ParsedText(src, ip6).value)
  {
    LexInOrder(src, 0);
    ParsedIsSound(Input(LexFrom(src, 0).value, ip6));
    WritableInRange(ParsedText(src, ip6).value);
  }

  /** The code of what the text parses to, if it does, fits the assembler's 32-bit instruction counts. */
  predicate TextFits(src: string, link: LinkType, ip6: Ipv6Notation) {
    match ParsedText(src, ip6)
    case Ok(e) =>
      ParsedTextInRange(src, ip6);
      ExpandedInRange(e);
      FitsAssembler(Expanded(e), link)
    case Err(_) => true
  }

  /** It does for every text of up to 18 million characters. */
  lemma ShortTextsFit(src: string, link: LinkType, ip6: Ipv6Notation)
    requires Short(src)
    ensures TextFits(src, link, ip6)
  {
    if ParsedText(src, ip6).Ok? {
      ShortTextFits(src, ip6, link);
    }
  }

  function CompiledText(src: string, link: LinkType, snaplen: u32,
        ip6: Ipv6Notation): Result<seq<Insn.Insn>, CompileError>
    requires TextFits(src, link, ip6)
  {
    var e :- ParsedText(src, ip6);
    ParsedTextInRange(src, ip6);
    ExpandedInRange(e);
    CompiledExpr(Expanded(e), link, snaplen)
  }

  method Compile(src: string, link: LinkType, snaplen: u32, ip6: Ipv6Notation)
    returns (r: Result<seq<Insn.Insn>, CompileError>)
    requires TextFits(src, link, ip6)
    ensures r == CompiledText(src, link, snaplen, ip6)
  {
    var tokens :- Lex(src);
    var e :- Parse(tokens, ip6);
    ParsedTextInRange(src, ip6);
    ExpandedInRange(e);
    var expanded := Expand(e);
    r := CompileExpanded(expanded, link, snaplen);
  }

  /** From text to verdict: when a text compiles it has parsed, and its program ends on every packet as
      the meaning of what was written says. */
  lemma TextPreservation(src: string, link: LinkType, snaplen: u32, ip6: Ipv6Notation, packet: Bytes)
    requires TextFits(src, link, ip6) && CompiledText(src, link, snaplen, ip6).Ok?
    ensures ParsedText(src, ip6).Ok? && InSourceRange(ParsedText(src, ip6).value)
    ensures Ending(CompiledText(src, link, snaplen, ip6).value, packet) ==
            StopFor(SourceMeaning(ParsedText(src, ip6).value, link, packet), snaplen)
  {
    ParsedTextInRange(src, ip6);
    ExpandedInRange(ParsedText(src, ip6).value);
    SourcePreservation(ParsedText(src, ip6).value, link, snaplen, packet);
  }

  /** Spans say where an expression stands, not what it means. */
  lemma {:induction false} SpansMeanNothing(e1: Expr, e2: Expr, link: LinkType, packet: Bytes)
    requires Stripped(e1) == Stripped(e2) && InSourceRange(e1) && InSourceRange(e2)
    ensures SourceMeaning(e1, link, packet) == SourceMeaning(e2, link, packet)
    decreases e1
  {
    match e1
    case PrimExpr(p) => PrimitiveSpansMeanNothing(p, e2.prim, link, packet);
    case EtherExpr(_) =>
    case NotExpr(inner, _) => SpansMeanNothing(inner, e2.inner, link, packet);
    case AndExpr(l, r, _) =>
      SpansMeanNothing(l, e2.left, link, packet);
      SpansMeanNothing(r, e2.right, link, packet);
    case OrExpr(l, r, _) =>
      SpansMeanNothing(l, e2.left, link, packet);
      SpansMeanNothing(r, e2.right, link, packet);
  }

  lemma PrimitiveSpansMeanNothing(p1: Primitive, p2: Primitive, link: LinkType, packet: Bytes)
    requires p1.(at := Span(0, 0)) == p2.(at := Span(0, 0)) && InSourceRange(PrimExpr(p1)) &&
             InSourceRange(PrimExpr(p2))
    ensures SourceMeaning(PrimExpr(p1), link, packet) == SourceMeaning(PrimExpr(p2), link, packet)
  {
    ChoicesInRange(p1);
    ChoicesInRange(p2);
    ProductMoves(p1, p2, Protos(p1), Dirs(p1));
    AnswersStay(Choices(p1), Choices(p2), p2.at, link, packet);
  }

  lemma AnswersStay(c1: seq<CompiledPrimitive>, c2: seq<CompiledPrimitive>, at: Span, link: LinkType, packet: Bytes)
    requires |c1| == |c2| && forall i :: 0 <= i < |c1| ==> c1[i].(at := at) == c2[i]
    requires forall c :: c in c1 ==> PrefixInRange(c.ty)
    ensures forall c :: c in c2 ==> PrefixInRange(c.ty)
    ensures Answers(c1, link, packet) == Answers(c2, link, packet)
  {
    forall i | 0 <= i < |c2| ensures PrefixInRange(c2[i].ty) {
      assert c1[i] in c1;
    }
    forall i | 0 <= i < |c1| ensures Answers(c1, link, packet)[i] == Answers(c2, link, packet)[i] {
      assert c1[i] in c1;
      LeafSpanMeansNothing(c1[i], at, link, packet);
    }
  }

  lemma LeafSpanMeansNothing(p: CompiledPrimitive, at: Span, link: LinkType, packet: Bytes)
    requires PrefixInRange(p.ty)
    ensures M.LeafMeaning(p.(at := at), link, packet) == M.LeafMeaning(p, link, packet)
  {
  }

  lemma {:induction false} ProductMoves(p1: Primitive, p2: Primitive, protos: seq<CompiledProto>, dirs: seq<DirTag>)
    requires p1.ty == p2.ty
    ensures |Product(p1, protos, dirs)| == |Product(p2, protos, dirs)|
    ensures forall i :: 0 <= i < |Product(p1, protos, dirs)| ==>
              Product(p1, protos, dirs)[i].(at := p2.at) == Product(p2, protos, dirs)[i]
  {
    if protos != [] {
      ProductMoves(p1, p2, protos[..|protos| - 1], dirs);
    }
  }

  /** The whole circle: write an expression out as text, compile the text, run the program, and the
      packet is judged as the expression means. */
  lemma WrittenExpressionRuns(e: Expr, link: LinkType, snaplen: u32, ip6: Ipv6Notation, packet: Bytes)
    requires WritesIpv6(ip6) && Writable(e)
    requires var text := Render(Print(e, 0, ip6));
             TextFits(text, link, ip6) && CompiledText(text, link, snaplen, ip6).Ok?
    ensures InSourceRange(e)
    ensures Ending(CompiledText(Render(Print(e, 0, ip6)), link, snaplen, ip6).value, packet) ==
            StopFor(SourceMeaning(e, link, packet), snaplen)
  {
    var text := Render(Print(e, 0, ip6));
    TextRoundTrip(e, ip6);
    WritableInRange(e);
    TextPreservation(text, link, snaplen, ip6, packet);
    SpansMeanNothing(ParsedText(text, ip6).value, e, link, packet);
  }

  /** Writing out what a text parses to, with parentheses only where they are needed, gives a text that
      parses to the same expression and asks the same question of every packet. */
  lemma RewritingKeepsMeaning(src: string, ip6: Ipv6Notation, link: LinkType, packet: Bytes)
    requires WritesIpv6(ip6) && ParsedText(src, ip6).Ok?
    ensures var e := ParsedText(src, ip6).value;
            var again := ParsedText(Render(Print(e, 0, ip6)), ip6);
            && InSourceRange(e)
            && again.Ok?
            && Stripped(again.value) == Stripped(e)
            && InSourceRange(again.value)
            && SourceMeaning(again.value, link, packet) == SourceMeaning(e, link, packet)
  {
    var e := ParsedText(src, ip6).value;
    ParsedTextInRange(src, ip6);
    TextRoundTrip(e, ip6);
    ParsedTextInRange(Render(Print(e, 0, ip6)), ip6);
    SpansMeanNothing(ParsedText(Render(Print(e, 0, ip6)), ip6).value, e, link, packet);
  }

  /** Compiling a text and running it on a packet. */
  method Judge(src: string, link: LinkType, snaplen: u32, ip6: Ipv6Notation, packet: Bytes)
    returns (r: Result<u32, CompileError>)
    requires TextFits(src, link, ip6)
    ensures r.Err? ==> CompiledText(src, link, snaplen, ip6) == Err(r.error)
    ensures r.Ok? ==> CompiledText(src, link, snaplen, ip6).Ok?
    ensures r.Ok? ==> ParsedText(src, ip6).Ok? && InSourceRange(ParsedText(src, ip6).value)
    ensures r.Ok? ==> r.value == if SourceMeaning(ParsedText(src, ip6).value, link, packet).Yes? then snaplen else 0
  {
    var insns :- Compile(src, link, snaplen, ip6);
    TextPreservation(src, link, snaplen, ip6, packet);
    var k, _ := Run(insns, packet);
    return Ok(k);
  }
}
