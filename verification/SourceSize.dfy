/** How large a source text's program can be: linear in the text, so that the assembler's 32-bit counts
    suffice for every text of up to 18 million characters. */
module SourceSize {
  import opened Ast
  import opened LinkType
  import opened Filters
  import opened Compiler
  import opened CodeSize
  import opened Desugar
  import opened Literals
  import opened Lexer
  import opened Parser
  import opened ParserProofs

  /** The most one leaf takes: a port range without an ethertype field. */
  const LEAF_SIZE := 19

  /** The most one primitive takes: three protocols in two directions. */
  const PRIMITIVE_SIZE := 114

  lemma LeafBound(p: CompiledPrimitive, link: LinkType)
    requires PrefixInRange(p.ty)
    ensures PrimSize(p, false, link) <= LEAF_SIZE
    ensures PrimSize(p, true, link) <= 2 * LEAF_SIZE
  {
    if p.ty.Host? || p.ty.Net? {
      assert AddressSize(p.ty) <= 9;
    }
  }

  lemma {:induction false} FoldBound(choices: seq<CompiledPrimitive>, link: LinkType)
    requires choices != [] && forall c :: c in choices ==> PrefixInRange(c.ty)
    ensures InRange(OrOf(AsLeaves(choices)))
    ensures ExprSize(OrOf(AsLeaves(choices)), link) <= LEAF_SIZE * |choices|
  {
    var n := |choices| - 1;
    assert choices[n] in choices;
    LeafBound(choices[n], link);
    if n > 0 {
      var before := choices[..n];
      assert forall c :: c in before ==> c in choices;
      assert AsLeaves(choices)[..n] == AsLeaves(before);
      FoldBound(before, link);
      var l, r := OrOf(AsLeaves(before)), Leaf(choices[n]);
      assert OrOf(AsLeaves(choices)) == Or(l, r);
      if IsDirPair(l, r) {
        LeafIsAlone(before);
        assert choices[0] in choices;
        LeafBound(choices[0], link);
      }
    }
  }

  /** Only a single choice folds to a leaf. */
  lemma LeafIsAlone(choices: seq<CompiledPrimitive>)
    requires choices != [] && OrOf(AsLeaves(choices)).Leaf?
    ensures |choices| == 1 && OrOf(AsLeaves(choices)) == Leaf(choices[0])
  {
  }

  lemma {:induction false} ProductLength(p: Primitive, protos: seq<CompiledProto>, dirs: seq<DirTag>)
    ensures |Product(p, protos, dirs)| == |protos| * |dirs|
  {
    if protos != [] {
      ProductLength(p, protos[..|protos| - 1], dirs);
      assert |protos| * |dirs| == (|protos| - 1) * |dirs| + |dirs|;
    }
  }

  lemma ChoicesBound(p: Primitive)
    ensures 0 < |Choices(p)| <= 6
  {
    ProductNonempty(p, Protos(p), Dirs(p));
    ProductLength(p, Protos(p), Dirs(p));
    assert |Protos(p)| <= 3 && |Dirs(p)| <= 2;
    assert |Dirs(p)| == 1 || |Dirs(p)| == 2;
  }

  /** An expanded expression takes at most 114 instructions for each primitive it was written with. */
  lemma {:induction false} ExpandedBound(e: Expr, link: LinkType)
    requires InSourceRange(e)
    ensures InRange(Expanded(e))
    ensures ExprSize(Expanded(e), link) <= PRIMITIVE_SIZE * Primitives(e)
    decreases e
  {
    match e
    case PrimExpr(p) =>
      ChoicesInRange(p);
      ChoicesBound(p);
      FoldBound(Choices(p), link);
    case EtherExpr(ether) =>
    case NotExpr(inner, _) =>
      ExpandedBound(inner, link);
    case AndExpr(l, r, _) =>
      ExpandedBound(l, link);
      ExpandedBound(r, link);
    case OrExpr(l, r, _) =>
      ExpandedBound(l, link);
      ExpandedBound(r, link);
      SidesBound(Expanded(l), Expanded(r), link);
  }

  /** Sharing a prologue never makes a program longer. */
  lemma SidesBound(l: ExpandedExpr, r: ExpandedExpr, link: LinkType)
    requires InRange(l) && InRange(r)
    ensures ExprSize(Or(l, r), link) <= ExprSize(l, link) + ExprSize(r, link)
  {
    if IsDirPair(l, r) {
      PairBound(l.prim, r.prim, link);
    }
  }

  lemma PairBound(p1: CompiledPrimitive, p2: CompiledPrimitive, link: LinkType)
    requires PrefixInRange(p1.ty) && DiffersOnlyInDir(p1, p2)
    ensures PrefixInRange(p2.ty) && PrimSize(p1, true, link) <= PrimSize(p1, false, link) + PrimSize(p2, false, link)
  {
  }

  /** A text has at most one token for each character, and the end. */
  lemma {:induction false} TokenBound(src: string, i: nat)
    requires i <= |src| && LexFrom(src, i).Ok?
    ensures |LexFrom(src, i).value| <= |src| - i + 1
    decreases |src| - i
  {
    if i < |src| {
      TokenBound(src, NextPosition(src, i));
      if !IsWhitespace(src[i]) {
        var t := FirstToken(src, i);
      }
    }
  }

  /** Texts of up to 18 million characters. */
  predicate Short(src: string) {
    PRIMITIVE_SIZE * |src| < 0x7fff_fffe
  }

  /** Whatever a short text parses to fits the assembler, on every link layer. */
  lemma ShortTextFits(src: string, ip6: Ipv6Notation, link: LinkType)
    requires Short(src) && LexFrom(src, 0).Ok?
    requires var s := Input(LexFrom(src, 0).value, ip6); s.Valid() && ParsedAll(s).Ok?
    ensures var e := ParsedAll(Input(LexFrom(src, 0).value, ip6)).value;
            InSourceRange(e) && InRange(Expanded(e)) && FitsAssembler(Expanded(e), link)
  {
    var s := Input(LexFrom(src, 0).value, ip6);
    var e := ParsedAll(s).value;
    LexInOrder(src, 0);
    TokenBound(src, 0);
    ParsedIsSound(s);
    WritableInRange(e);
    ExpandedBound(e, link);
    FitsBySize(Expanded(e), link);
  }
}
