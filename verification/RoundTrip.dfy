/** Printing and parsing undo each other, from expressions to tokens and to text. */
module RoundTrip {
  import opened Words
  import opened Errors
  import opened Ast
  import opened Lexer
  import opened Literals
  import opened Parser
  import opened Printer
  import opened LiteralProofs

  /** The tokens at `pos` carry these tags, and another token follows. */
  predicate Reads(s: Input, pos: nat, tags: seq<TokenTag>) {
    pos + |tags| < |s.tokens| && forall i :: 0 <= i < |tags| ==> s.tokens[pos + i].tag == tags[i]
  }

  lemma ReadsSplit(s: Input, pos: nat, a: seq<TokenTag>, b: seq<TokenTag>)
    requires Reads(s, pos, a + b)
    ensures Reads(s, pos, a) && Reads(s, pos + |a|, b)
  {
    forall i | 0 <= i < |a| ensures s.tokens[pos + i].tag == a[i] {
      assert (a + b)[i] == a[i];
    }
    forall i | 0 <= i < |b| ensures s.tokens[pos + |a| + i].tag == b[i] {
      assert (a + b)[|a| + i] == b[i];
    }
  }

  lemma ReadsOne(s: Input, pos: nat, tag: TokenTag)
    requires Reads(s, pos, [tag])
    ensures pos < |s.tokens| && s.tokens[pos].tag == tag
  {
    assert s.tokens[pos + 0].tag == [tag][0];
  }

  /** Equality of two readings, under a name. What is read where is stated as `forall r :: Yields(x, r) ==>
      Yields(y, r)`, which says no more than that `y` equals `x`. Stated so, the verifier takes the reading `y`,
      a call of a grammar function, as it stands; given as an equation it would make the verifier unfold the
      grammar's mutual recursion around every token. The lemmas `UnaryReads`, `AndReads` and `OrReads` turn
      the one form into the other. */
  ghost predicate Yields<T>(reading: Parsed<T>, r: Parsed<T>) {
    reading == r
  }

  // ----- leaves -----

  /** The type word at `pos` and what follows it are read as this type. */
  ghost predicate TypeReads(s: Input, start: nat, pos: nat, ty: PrimType, end: nat)
    requires s.Valid() && pos + 1 < |s.tokens| && s.tokens[pos].tag.Word?
  {
    forall r :: Yields(Ok((ty, end)), r) ==>
      Yields(TypeAt(s, start, s.tokens[pos].tag.text, s.tokens[pos].at, pos + 1), r)
  }

  lemma HostReads(s: Input, start: nat, pos: nat, addr: AddrLit)
    requires s.Valid() && WritesIpv6(s.ip6) && pos + 2 < |s.tokens|
    requires s.tokens[pos].tag == Word("host") && s.tokens[pos + 1].tag == Word(AddrText(addr, s.ip6))
    ensures TypeReads(s, start, pos, Host(addr), pos + 2)
  {
    ReadsNet(addr, None, false, s.tokens[pos + 1].at, s.ip6);
  }

  lemma NetReads(s: Input, start: nat, pos: nat, addr: AddrLit, prefix: Option<u8>)
    requires s.Valid() && WritesIpv6(s.ip6) && PrefixInRange(Net(addr, prefix)) && pos + 2 < |s.tokens|
    requires s.tokens[pos].tag == Word("net") && s.tokens[pos + 1].tag == Word(NetText(addr, prefix, s.ip6))
    ensures TypeReads(s, start, pos, Net(addr, prefix), pos + 2)
  {
    ReadsNet(addr, prefix, true, s.tokens[pos + 1].at, s.ip6);
  }

  lemma PortReads(s: Input, start: nat, pos: nat, port: u16)
    requires s.Valid() && pos + 2 < |s.tokens|
    requires s.tokens[pos].tag == Word("port") && s.tokens[pos + 1].tag == Word(Dec(port))
    ensures TypeReads(s, start, pos, Port(port), pos + 2)
  {
    ReadsDecimal(port, 0xffff);
  }

  lemma RangeReads(s: Input, start: nat, pos: nat, lo: u16, hi: u16)
    requires s.Valid() && lo <= hi && pos + 4 < |s.tokens|
    requires s.tokens[pos].tag == Word("portrange") && s.tokens[pos + 1].tag == Word(Dec(lo))
    requires s.tokens[pos + 2].tag == Dash && s.tokens[pos + 3].tag == Word(Dec(hi))
    ensures TypeReads(s, start, pos, PortRange(lo, hi), pos + 4)
  {
    ReadsDecimal(lo, 0xffff);
    ReadsDecimal(hi, 0xffff);
    assert PortRangeAt(s, start, pos + 1) == Ok((PortRange(lo, hi), pos + 4));
  }

  /** The words of a type, where they stand. */
  lemma TypeStands(s: Input, pos: nat, ty: PrimType)
    requires Reads(s, pos, TypeTags(ty, s.ip6))
    ensures var tags := TypeTags(ty, s.ip6);
            && |tags| == (if ty.PortRange? then 4 else 2)
            && s.tokens[pos].tag == tags[0] && s.tokens[pos + 1].tag == tags[1]
            && (ty.PortRange? ==> s.tokens[pos + 2].tag == tags[2] && s.tokens[pos + 3].tag == tags[3])
  {
    var tags := TypeTags(ty, s.ip6);
    assert s.tokens[pos + 0].tag == tags[0] && s.tokens[pos + 1].tag == tags[1];
    if ty.PortRange? {
      assert s.tokens[pos + 2].tag == tags[2] && s.tokens[pos + 3].tag == tags[3];
    }
  }

  lemma ReadsType(s: Input, start: nat, pos: nat, ty: PrimType)
    requires s.Valid() && WritesIpv6(s.ip6)
    requires PrefixInRange(ty) && (ty.PortRange? ==> ty.lo <= ty.hi)
    requires Reads(s, pos, TypeTags(ty, s.ip6))
    ensures s.tokens[pos].tag == TypeTags(ty, s.ip6)[0]
    ensures TypeReads(s, start, pos, ty, pos + |TypeTags(ty, s.ip6)|)
  {
    TypeStands(s, pos, ty);
    match ty
    case Host(addr) => HostReads(s, start, pos, addr);
    case Net(addr, prefix) => NetReads(s, start, pos, addr, prefix);
    case Port(port) => PortReads(s, start, pos, port);
    case PortRange(lo, hi) => RangeReads(s, start, pos, lo, hi);
  }

  lemma ProtoReads(tag: ProtoTag)
    ensures ProtoWord(Word(ProtoText(tag))) == Some(tag)
  {
  }

  lemma DirReads(dir: DirTag)
    ensures DirWord(Word(DirText(dir))) == Some(dir) && ProtoWord(Word(DirText(dir))).None?
  {
  }

  /** The first word of a primitive starts no other construct. */
  predicate StartsPrimitive(tag: TokenTag) {
    tag.Word? && tag.text !in {"not", "ether", "broadcast", "multicast"}
  }

  /** The qualifiers of a primitive, present or not, leave the parser at its type. */
  lemma ReadsQualifiers(s: Input, pos: nat, p: Primitive, ty: TokenTag)
    requires s.Valid() && Reads(s, pos, ProtoTags(p.proto) + DirTags(p.dir))
    requires var p2 := pos + |ProtoTags(p.proto) + DirTags(p.dir)|; p2 < |s.tokens| && s.tokens[p2].tag == ty
    requires ProtoWord(ty).None? && DirWord(ty).None? && StartsPrimitive(ty)
    ensures StartsPrimitive(s.tokens[pos].tag)
    ensures ProtoWord(s.tokens[pos].tag) == p.proto
    ensures DirWord(s.tokens[pos + |ProtoTags(p.proto)|].tag) == p.dir
  {
    var a, b := ProtoTags(p.proto), DirTags(p.dir);
    ReadsSplit(s, pos, a, b);
    if p.dir.Some? {
      DirReads(p.dir.value);
      ReadsOne(s, pos + |a|, b[0]);
    }
    if p.proto.Some? {
      ProtoReads(p.proto.value);
      ReadsOne(s, pos, a[0]);
    }
  }

  lemma TypeWord(ty: PrimType, ip6: Ipv6Notation)
    ensures ProtoWord(TypeTags(ty, ip6)[0]).None? && DirWord(TypeTags(ty, ip6)[0]).None? &&
            StartsPrimitive(TypeTags(ty, ip6)[0])
  {
  }

  /** The tokens from `pos` on are read as `p`, its qualifiers having been read before. */
  ghost predicate UnqualifiedReads(s: Input, start: nat, pos: nat, p: Primitive, end: nat)
    requires s.Valid() && pos < |s.tokens|
  {
    forall r :: Yields(Ok((p, end)), r) ==> Yields(UnqualifiedAt(s, start, p.proto, p.dir, pos), r)
  }

  lemma UnqualifiedIsType(s: Input, start: nat, p: Primitive, pos: nat, end: nat)
    requires s.Valid() && pos + 1 < |s.tokens| && s.tokens[pos].tag.Word? && TypeReads(s, start, pos, p.ty, end)
    requires 0 < end < |s.tokens|
    ensures UnqualifiedReads(s, start, pos, p.(at := Span(start, s.tokens[end - 1].at.end)), end)
  {
    UnqualifiedUnfolds(s, start, p.proto, p.dir, pos);
    TypeIsRead(s, start, pos, p.ty, end);
    QualifiedReads(s, start, p, pos, end, TypeAt(s, start, s.tokens[pos].tag.text, s.tokens[pos].at, pos + 1));
  }

  lemma QualifiedReads(s: Input, start: nat, p: Primitive, pos: nat, end: nat, ty: Parsed<PrimType>)
    requires s.Valid() && pos < |s.tokens| && 0 < end < |s.tokens| && ty == Ok((p.ty, end))
    requires UnqualifiedAt(s, start, p.proto, p.dir, pos) == Qualified(s, start, p.proto, p.dir, ty)
    ensures UnqualifiedReads(s, start, pos, p.(at := Span(start, s.tokens[end - 1].at.end)), end)
  {
  }

  lemma TypeIsRead(s: Input, start: nat, pos: nat, ty: PrimType, end: nat)
    requires s.Valid() && pos + 1 < |s.tokens| && s.tokens[pos].tag.Word? && TypeReads(s, start, pos, ty, end)
    ensures TypeAt(s, start, s.tokens[pos].tag.text, s.tokens[pos].at, pos + 1) == Ok((ty, end))
  {
    var r: Parsed<PrimType> := Ok((ty, end));
    assert Yields(r, r);
  }

  lemma UnqualifiedUnfolds(s: Input, start: nat, proto: Option<ProtoTag>, dir: Option<DirTag>, pos: nat)
    requires s.Valid() && pos + 1 < |s.tokens| && s.tokens[pos].tag.Word?
    ensures UnqualifiedAt(s, start, proto, dir, pos) ==
            Qualified(s, start, proto, dir, TypeAt(s, start, s.tokens[pos].tag.text, s.tokens[pos].at, pos + 1))
  {
    assert WordAt(s, pos, EXPECT_TYPE) == Ok(((s.tokens[pos].tag.text, s.tokens[pos].at), pos + 1));
  }

  lemma ReadsUnqualified(s: Input, start: nat, pos: nat, p: Primitive)
    requires s.Valid() && WritesIpv6(s.ip6)
    requires PrefixInRange(p.ty) && (p.ty.PortRange? ==> p.ty.lo <= p.ty.hi)
    requires Reads(s, pos, TypeTags(p.ty, s.ip6))
    ensures s.tokens[pos].tag == TypeTags(p.ty, s.ip6)[0]
    ensures var end := pos + |TypeTags(p.ty, s.ip6)|;
            UnqualifiedReads(s, start, pos, p.(at := Span(start, s.tokens[end - 1].at.end)), end)
  {
    ReadsType(s, start, pos, p.ty);
    UnqualifiedIsType(s, start, p, pos, pos + |TypeTags(p.ty, s.ip6)|);
  }

  lemma PastQualifiers(s: Input, pos: nat, p: Primitive)
    requires s.Valid() && pos + |ProtoTags(p.proto)| + |DirTags(p.dir)| < |s.tokens|
    requires ProtoWord(s.tokens[pos].tag) == p.proto
    requires DirWord(s.tokens[pos + |ProtoTags(p.proto)|].tag) == p.dir
    ensures PrimitiveAt(s, pos) ==
            UnqualifiedAt(s, s.tokens[pos].at.start, p.proto, p.dir, pos + |ProtoTags(p.proto)| + |DirTags(p.dir)|)
  {
    var p1 := Past(s, pos, p.proto.Some?);
    assert p1 == pos + |ProtoTags(p.proto)|;
    assert Past(s, p1, p.dir.Some?) == p1 + |DirTags(p.dir)|;
  }

  /** Qualifiers as written, and behind them a type that is read, make a primitive. */
  lemma QualifiedRead(s: Input, pos: nat, p: Primitive, end: nat)
    requires s.Valid() && Reads(s, pos, ProtoTags(p.proto) + DirTags(p.dir))
    requires var p2 := pos + |ProtoTags(p.proto) + DirTags(p.dir)|;
             && s.tokens[p2].tag == TypeTags(p.ty, s.ip6)[0]
             && UnqualifiedReads(s, s.tokens[pos].at.start, p2, p, end)
    ensures StartsPrimitive(s.tokens[pos].tag)
    ensures PrimitiveReads(s, pos, p, end)
  {
    assert Yields(Ok((p, end)), Ok((p, end)));
    TypeWord(p.ty, s.ip6);
    ReadsQualifiers(s, pos, p, TypeTags(p.ty, s.ip6)[0]);
    PastQualifiers(s, pos, p);
  }

  ghost predicate PrimitiveReads(s: Input, pos: nat, p: Primitive, end: nat)
    requires s.Valid() && pos < |s.tokens|
  {
    forall r :: Yields(Ok((p, end)), r) ==> Yields(PrimitiveAt(s, pos), r)
  }

  lemma ReadsPrimitive(s: Input, pos: nat, p: Primitive) returns (p': Primitive)
    requires s.Valid() && WritesIpv6(s.ip6)
    requires PrefixInRange(p.ty) && (p.ty.PortRange? ==> p.ty.lo <= p.ty.hi)
    requires Reads(s, pos, PrimitiveTags(p, s.ip6))
    ensures StartsPrimitive(s.tokens[pos].tag)
    ensures p'.(at := Span(0, 0)) == p.(at := Span(0, 0))
    ensures PrimitiveReads(s, pos, p', pos + |PrimitiveTags(p, s.ip6)|)
  {
    var ty, end := PrimitiveParts(s, pos, p);
    ReadsUnqualified(s, s.tokens[pos].at.start, ty, p);
    p' := p.(at := Span(s.tokens[pos].at.start, s.tokens[end - 1].at.end));
    QualifiedRead(s, pos, p', end);
  }

  /** Where the type of a primitive begins, and where the primitive ends. */
  lemma PrimitiveParts(s: Input, pos: nat, p: Primitive) returns (ty: nat, end: nat)
    requires Reads(s, pos, PrimitiveTags(p, s.ip6))
    ensures ty == pos + |ProtoTags(p.proto) + DirTags(p.dir)|
    ensures 0 < end == pos + |PrimitiveTags(p, s.ip6)| == ty + |TypeTags(p.ty, s.ip6)| < |s.tokens|
    ensures Reads(s, pos, ProtoTags(p.proto) + DirTags(p.dir)) && Reads(s, ty, TypeTags(p.ty, s.ip6))
  {
    ty := pos + |ProtoTags(p.proto) + DirTags(p.dir)|;
    end := ty + |TypeTags(p.ty, s.ip6)|;
    ReadsSplit(s, pos, ProtoTags(p.proto) + DirTags(p.dir), TypeTags(p.ty, s.ip6));
  }

  lemma HexPairIsNotWord(mac: MacAddr)
    ensures MacText(mac) != "host"
  {
    assert MacText(mac) == HexPair(mac[0]) + [':'] + Join(HexAll(mac)[1..], ':');
    assert MacText(mac)[2] == ':';
  }

  predicate StartsEther(tag: TokenTag) {
    tag.Word? && tag.text in {"ether", "broadcast", "multicast"}
  }

  ghost predicate EtherReads(s: Input, pos: nat, e: EtherPrimitive, end: nat)
    requires s.Valid() && pos < |s.tokens| && s.tokens[pos].tag.Word?
  {
    forall r :: Yields(Ok((e, end)), r) ==> Yields(EtherAt(s, pos), r)
  }

  lemma EtherHostReads(s: Input, pos: nat, mac: MacAddr, dir: Option<DirTag>)
    requires s.Valid() && pos + 3 < |s.tokens| && s.tokens[pos].tag == Word("ether")
    requires s.tokens[pos + 1].tag == Word(if dir.Some? then DirText(dir.value) else "host")
    requires s.tokens[pos + 2].tag == Word(MacText(mac))
    ensures EtherReads(s, pos, EtherPrimitive(EtherHost(mac, dir),
                                              Span(s.tokens[pos].at.start, s.tokens[pos + 2].at.end)), pos + 3)
  {
    ReadsMac(mac, s.tokens[pos + 2].at);
    HexPairIsNotWord(mac);
    assert EtherKindAt(s, pos + 1) == Ok((EtherHost(mac, dir), pos + 3));
  }

  lemma EtherProtoReads(s: Input, pos: nat, ethertype: u16)
    requires s.Valid() && pos + 3 < |s.tokens| && s.tokens[pos].tag == Word("ether") &&
             s.tokens[pos + 1].tag == Word("proto")
    requires s.tokens[pos + 2].tag == Word(Dec(ethertype))
    ensures EtherReads(s, pos, EtherPrimitive(EtherProto(ethertype),
                                              Span(s.tokens[pos].at.start, s.tokens[pos + 2].at.end)), pos + 3)
  {
    ReadsEthertype(ethertype, s.tokens[pos + 2].at);
    assert EtherKindAt(s, pos + 1) == Ok((EtherProto(ethertype), pos + 3));
  }

  lemma ReadsEther(s: Input, pos: nat, kind: EtherKind) returns (e: EtherPrimitive)
    requires s.Valid() && Reads(s, pos, EtherTags(kind))
    ensures StartsEther(s.tokens[pos].tag) && e.kind == kind && EtherReads(s, pos, e, pos + |EtherTags(kind)|)
  {
    var tags := EtherTags(kind);
    assert s.tokens[pos + 0].tag == tags[0];
    e := EtherPrimitive(kind, Span(s.tokens[pos].at.start, s.tokens[pos + |tags| - 1].at.end));
    match kind
    case EtherHost(mac, dir) =>
      assert s.tokens[pos + 1].tag == tags[1] && s.tokens[pos + 2].tag == tags[2];
      EtherHostReads(s, pos, mac, dir);
    case EtherProto(ethertype) =>
      assert s.tokens[pos + 1].tag == tags[1] && s.tokens[pos + 2].tag == tags[2];
      EtherProtoReads(s, pos, ethertype);
    case Broadcast =>
    case Multicast =>
  }

  // ----- expressions -----

  /** Reading an expression of this precedence from `pos` on: whatever the parser, holding `e`, yields from
      `end` on is what it yields from `pos` on. At its own level it goes on looking for more operands. */
  ghost predicate ReadsAs(s: Input, pos: nat, level: nat, e: Expr, end: nat)
    requires s.Valid() && pos < |s.tokens| && end < |s.tokens|
  {
    match level
    case 0 => forall r :: Yields(OrTail(s, e, end), r) ==> Yields(OrAt(s, pos), r)
    case 1 => forall r :: Yields(AndTail(s, e, end), r) ==> Yields(AndAt(s, pos), r)
    case _ => forall r :: Yields(Ok((e, end)), r) ==> Yields(UnaryAt(s, pos), r)
  }

  lemma OrReads(s: Input, pos: nat, e: Expr, end: nat)
    requires s.Valid() && pos < |s.tokens| && end < |s.tokens|
    ensures ReadsAs(s, pos, 0, e, end) <==> OrAt(s, pos) == OrTail(s, e, end)
  {
    assert Yields(OrTail(s, e, end), OrTail(s, e, end));
  }

  lemma AndReads(s: Input, pos: nat, e: Expr, end: nat)
    requires s.Valid() && pos < |s.tokens| && end < |s.tokens|
    ensures ReadsAs(s, pos, 1, e, end) <==> AndAt(s, pos) == AndTail(s, e, end)
  {
    assert Yields(AndTail(s, e, end), AndTail(s, e, end));
  }

  lemma UnaryReads(s: Input, pos: nat, e: Expr, end: nat)
    requires s.Valid() && pos < |s.tokens| && end < |s.tokens|
    ensures ReadsAs(s, pos, 2, e, end) <==> UnaryAt(s, pos) == Ok((e, end))
  {
    assert Yields(Ok((e, end)), Ok((e, end)));
  }

  /** Nothing follows that would bind tighter than this level. */
  predicate Stops(s: Input, level: nat, end: nat)
    requires end < |s.tokens|
  {
    level == 0 ==> !IsWord(s, end, "and")
  }

  /** What reads at a tighter level reads at a looser one. */
  lemma Loosens(s: Input, pos: nat, level: nat, wanted: nat, e: Expr, end: nat)
    requires s.Valid() && pos < |s.tokens| && end < |s.tokens| && wanted <= level <= 2
    requires ReadsAs(s, pos, level, e, end) && Stops(s, wanted, end)
    ensures ReadsAs(s, pos, wanted, e, end)
  {
    if level == 2 && wanted < 2 {
      UnaryToAnd(s, pos, e, end);
    }
    if level > 0 && wanted == 0 {
      AndToOr(s, pos, e, end);
    }
  }

  lemma UnaryToAnd(s: Input, pos: nat, e: Expr, end: nat)
    requires s.Valid() && pos < |s.tokens| && end < |s.tokens| && ReadsAs(s, pos, 2, e, end)
    ensures ReadsAs(s, pos, 1, e, end)
  {
    UnaryReads(s, pos, e, end);
    AndReads(s, pos, e, end);
  }

  lemma AndToOr(s: Input, pos: nat, e: Expr, end: nat)
    requires s.Valid() && pos < |s.tokens| && end < |s.tokens| && ReadsAs(s, pos, 1, e, end)
    requires !IsWord(s, end, "and")
    ensures ReadsAs(s, pos, 0, e, end)
  {
    AndReads(s, pos, e, end);
    assert AndTail(s, e, end) == Ok((e, end));
    OrReads(s, pos, e, end);
  }

  lemma {:induction false} ReadsPrint(s: Input, pos: nat, e: Expr, level: nat) returns (e': Expr)
    requires s.Valid() && WritesIpv6(s.ip6) && Writable(e) && level <= 2
    requires Reads(s, pos, Print(e, level, s.ip6))
    requires Stops(s, level, pos + |Print(e, level, s.ip6)|)
    ensures Stripped(e') == Stripped(e)
    ensures ReadsAs(s, pos, level, e', pos + |Print(e, level, s.ip6)|)
    decreases e, 5
  {
    if Precedence(e) >= level {
      e' := ReadsLoosely(s, pos, e, level);
    } else {
      e' := ReadsEnclosed(s, pos, e, level);
    }
  }

  /** An expression in parentheses reads at every level. */
  lemma {:induction false} ReadsEnclosed(s: Input, pos: nat, e: Expr, level: nat) returns (e': Expr)
    requires s.Valid() && WritesIpv6(s.ip6) && Writable(e) && level <= 2
    requires Reads(s, pos, [LParen] + Bare(e, s.ip6) + [RParen])
    requires Stops(s, level, pos + |[LParen] + Bare(e, s.ip6) + [RParen]|)
    ensures Stripped(e') == Stripped(e)
    ensures ReadsAs(s, pos, level, e', pos + |[LParen] + Bare(e, s.ip6) + [RParen]|)
    decreases e, 4
  {
    e' := ReadsParens(s, pos, e);
    Loosens(s, pos, 2, level, e', pos + |[LParen] + Bare(e, s.ip6) + [RParen]|);
  }

  lemma {:induction false} ReadsParens(s: Input, pos: nat, e: Expr) returns (e': Expr)
    requires s.Valid() && WritesIpv6(s.ip6) && Writable(e)
    requires Reads(s, pos, [LParen] + Bare(e, s.ip6) + [RParen])
    ensures Stripped(e') == Stripped(e)
    ensures ReadsAs(s, pos, 2, e', pos + |[LParen] + Bare(e, s.ip6) + [RParen]|)
    decreases e, 3
  {
    var end := ParensAt(s, pos, Bare(e, s.ip6));
    e' := ReadsLoosely(s, pos + 1, e, 0);
    Parenthesised(s, pos, e', end);
  }

  /** An expression without parentheses of its own reads at every level it may stand at. */
  lemma {:induction false} ReadsLoosely(s: Input, pos: nat, e: Expr, level: nat) returns (e': Expr)
    requires s.Valid() && WritesIpv6(s.ip6) && Writable(e) && level <= Precedence(e)
    requires Reads(s, pos, Bare(e, s.ip6))
    requires Stops(s, level, pos + |Bare(e, s.ip6)|)
    ensures Stripped(e') == Stripped(e)
    ensures ReadsAs(s, pos, level, e', pos + |Bare(e, s.ip6)|)
    decreases e, 2
  {
    e' := ReadsBare(s, pos, e, level);
    Loosens(s, pos, Precedence(e), level, e', pos + |Bare(e, s.ip6)|);
  }

  lemma ParensAt(s: Input, pos: nat, bare: seq<TokenTag>) returns (end: nat)
    requires Reads(s, pos, [LParen] + bare + [RParen])
    ensures pos + 1 < end == pos + |[LParen] + bare + [RParen]| < |s.tokens| && end - 1 == pos + 1 + |bare|
    ensures s.tokens[pos].tag == LParen && s.tokens[end - 1].tag == RParen
    ensures Reads(s, pos + 1, bare)
  {
    end := pos + |bare| + 2;
    ReadsSplit(s, pos, [LParen] + bare, [RParen]);
    ReadsSplit(s, pos, [LParen], bare);
    ReadsOne(s, pos, LParen);
    ReadsOne(s, pos + 1 + |bare|, RParen);
  }

  lemma Parenthesised(s: Input, pos: nat, e: Expr, end: nat)
    requires s.Valid() && pos + 1 < end < |s.tokens| && s.tokens[pos].tag == LParen && s.tokens[end - 1].tag == RParen
    requires ReadsAs(s, pos + 1, 0, e, end - 1)
    ensures ReadsAs(s, pos, 2, e, end)
  {
    OrReads(s, pos + 1, e, end - 1);
    assert OrTail(s, e, end - 1) == Ok((e, end - 1));
    assert PrimaryAt(s, pos) == Ok((e, end));
    UnaryReads(s, pos, e, end);
  }

  lemma {:induction false} ReadsBare(s: Input, pos: nat, e: Expr, level: nat) returns (e': Expr)
    requires s.Valid() && WritesIpv6(s.ip6) && Writable(e) && level <= Precedence(e)
    requires Reads(s, pos, Bare(e, s.ip6))
    requires Stops(s, level, pos + |Bare(e, s.ip6)|)
    ensures Stripped(e') == Stripped(e)
    ensures ReadsAs(s, pos, Precedence(e), e', pos + |Bare(e, s.ip6)|)
    decreases e, 1
  {
    match e
    case PrimExpr(p) => e' := ReadsBarePrimitive(s, pos, p);
    case EtherExpr(ether) => e' := ReadsBareEther(s, pos, ether);
    case NotExpr(_, _) => e' := ReadsBareNot(s, pos, e);
    case AndExpr(_, _, _) => e' := ReadsBareAnd(s, pos, e);
    case OrExpr(_, _, _) => e' := ReadsBareOr(s, pos, e);
  }

  lemma ReadsBarePrimitive(s: Input, pos: nat, p: Primitive) returns (e': Expr)
    requires s.Valid() && WritesIpv6(s.ip6)
    requires PrefixInRange(p.ty) && (p.ty.PortRange? ==> p.ty.lo <= p.ty.hi)
    requires Reads(s, pos, PrimitiveTags(p, s.ip6))
    ensures e'.PrimExpr? && e'.prim.(at := Span(0, 0)) == p.(at := Span(0, 0))
    ensures ReadsAs(s, pos, 2, e', pos + |PrimitiveTags(p, s.ip6)|)
  {
    var p' := ReadsPrimitive(s, pos, p);
    e' := PrimExpr(p');
    PrimitiveJoins(s, pos, p', pos + |PrimitiveTags(p, s.ip6)|);
  }

  lemma PrimitiveJoins(s: Input, pos: nat, p: Primitive, end: nat)
    requires s.Valid() && pos < |s.tokens| && StartsPrimitive(s.tokens[pos].tag) && PrimitiveReads(s, pos, p, end)
    ensures end < |s.tokens| && ReadsAs(s, pos, 2, PrimExpr(p), end)
  {
    assert Yields(Ok((p, end)), Ok((p, end)));
    assert PrimaryAt(s, pos) == Ok((PrimExpr(p), end));
    UnaryReads(s, pos, PrimExpr(p), end);
  }

  lemma ReadsBareEther(s: Input, pos: nat, ether: EtherPrimitive) returns (e': Expr)
    requires s.Valid() && Reads(s, pos, EtherTags(ether.kind))
    ensures e'.EtherExpr? && e'.ether.(at := Span(0, 0)) == ether.(at := Span(0, 0))
    ensures ReadsAs(s, pos, 2, e', pos + |EtherTags(ether.kind)|)
  {
    var e := ReadsEther(s, pos, ether.kind);
    e' := EtherExpr(e);
    EtherJoins(s, pos, e, pos + |EtherTags(ether.kind)|);
  }

  lemma EtherJoins(s: Input, pos: nat, e: EtherPrimitive, end: nat)
    requires s.Valid() && pos < |s.tokens| && StartsEther(s.tokens[pos].tag) && EtherReads(s, pos, e, end)
    ensures end < |s.tokens| && ReadsAs(s, pos, 2, EtherExpr(e), end)
  {
    assert Yields(Ok((e, end)), Ok((e, end)));
    assert PrimaryAt(s, pos) == Ok((EtherExpr(e), end));
    UnaryReads(s, pos, EtherExpr(e), end);
  }

  lemma {:induction false} ReadsBareNot(s: Input, pos: nat, e: Expr) returns (e': Expr)
    requires s.Valid() && WritesIpv6(s.ip6) && Writable(e) && e.NotExpr?
    requires Reads(s, pos, Bare(e, s.ip6))
    ensures Stripped(e') == Stripped(e)
    ensures ReadsAs(s, pos, 2, e', pos + |Bare(e, s.ip6)|)
    decreases e, 0
  {
    ReadsSplit(s, pos, [Word("not")], Print(e.inner, 2, s.ip6));
    ReadsOne(s, pos, Word("not"));
    var i := ReadsPrint(s, pos + 1, e.inner, 2);
    e' := NotExpr(i, Span(s.tokens[pos].at.start, ExprSpan(i).end));
    NotJoins(s, pos, i, pos + |Bare(e, s.ip6)|);
  }

  lemma NotJoins(s: Input, pos: nat, i: Expr, end: nat)
    requires s.Valid() && pos + 1 < |s.tokens| && end < |s.tokens|
    requires IsWord(s, pos, "not") && ReadsAs(s, pos + 1, 2, i, end)
    ensures ReadsAs(s, pos, 2, NotExpr(i, Span(s.tokens[pos].at.start, ExprSpan(i).end)), end)
  {
    UnaryReads(s, pos + 1, i, end);
    UnaryReads(s, pos, NotExpr(i, Span(s.tokens[pos].at.start, ExprSpan(i).end)), end);
  }

  lemma {:induction false} ReadsBareAnd(s: Input, pos: nat, e: Expr) returns (e': Expr)
    requires s.Valid() && WritesIpv6(s.ip6) && Writable(e) && e.AndExpr?
    requires Reads(s, pos, Bare(e, s.ip6))
    ensures Stripped(e') == Stripped(e)
    ensures ReadsAs(s, pos, 1, e', pos + |Bare(e, s.ip6)|)
    decreases e, 0
  {
    var mid := OperatorAt(s, pos, Print(e.left, 1, s.ip6), "and", Print(e.right, 2, s.ip6));
    var l := ReadsPrint(s, pos, e.left, 1);
    var r := ReadsPrint(s, mid + 1, e.right, 2);
    e' := AndExpr(l, r, Span(ExprSpan(l).start, ExprSpan(r).end));
    AndJoins(s, pos, l, mid, r, pos + |Bare(e, s.ip6)|);
  }

  lemma {:induction false} ReadsBareOr(s: Input, pos: nat, e: Expr) returns (e': Expr)
    requires s.Valid() && WritesIpv6(s.ip6) && Writable(e) && e.OrExpr?
    requires Reads(s, pos, Bare(e, s.ip6))
    requires !IsWord(s, pos + |Bare(e, s.ip6)|, "and")
    ensures Stripped(e') == Stripped(e)
    ensures ReadsAs(s, pos, 0, e', pos + |Bare(e, s.ip6)|)
    decreases e, 0
  {
    var mid := OperatorAt(s, pos, Print(e.left, 0, s.ip6), "or", Print(e.right, 1, s.ip6));
    var l := ReadsPrint(s, pos, e.left, 0);
    var r := ReadsPrint(s, mid + 1, e.right, 1);
    e' := OrExpr(l, r, Span(ExprSpan(l).start, ExprSpan(r).end));
    OrJoins(s, pos, l, mid, r, pos + |Bare(e, s.ip6)|);
  }

  lemma AndJoins(s: Input, pos: nat, l: Expr, mid: nat, r: Expr, end: nat)
    requires s.Valid() && pos < |s.tokens| && mid + 1 < |s.tokens| && end < |s.tokens|
    requires ReadsAs(s, pos, 1, l, mid) && IsWord(s, mid, "and") && ReadsAs(s, mid + 1, 2, r, end)
    ensures ReadsAs(s, pos, 1, AndExpr(l, r, Span(ExprSpan(l).start, ExprSpan(r).end)), end)
  {
    AndReads(s, pos, l, mid);
    AndTailStep(s, l, mid, r, end);
    AndReads(s, pos, AndExpr(l, r, Span(ExprSpan(l).start, ExprSpan(r).end)), end);
  }

  lemma AndTailStep(s: Input, l: Expr, mid: nat, r: Expr, end: nat)
    requires s.Valid() && mid + 1 < |s.tokens| && end < |s.tokens| && IsWord(s, mid, "and") &&
             ReadsAs(s, mid + 1, 2, r, end)
    ensures AndTail(s, l, mid) == AndTail(s, AndExpr(l, r, Span(ExprSpan(l).start, ExprSpan(r).end)), end)
  {
    UnaryReads(s, mid + 1, r, end);
  }

  lemma OrJoins(s: Input, pos: nat, l: Expr, mid: nat, r: Expr, end: nat)
    requires s.Valid() && pos < |s.tokens| && mid + 1 < |s.tokens| && end < |s.tokens|
    requires ReadsAs(s, pos, 0, l, mid) && IsWord(s, mid, "or") && ReadsAs(s, mid + 1, 1, r, end) &&
             !IsWord(s, end, "and")
    ensures ReadsAs(s, pos, 0, OrExpr(l, r, Span(ExprSpan(l).start, ExprSpan(r).end)), end)
  {
    OrReads(s, pos, l, mid);
    AndReads(s, mid + 1, r, end);
    assert AndTail(s, r, end) == Ok((r, end));
    OrReads(s, pos, OrExpr(l, r, Span(ExprSpan(l).start, ExprSpan(r).end)), end);
  }

  lemma OperatorAt(s: Input, pos: nat, left: seq<TokenTag>, op: string, right: seq<TokenTag>) returns (mid: nat)
    requires Reads(s, pos, left + [Word(op)] + right)
    ensures mid == pos + |left| && mid < |s.tokens| && IsWord(s, mid, op)
    ensures mid + 1 + |right| == pos + |left + [Word(op)] + right|
    ensures Reads(s, pos, left) && Reads(s, mid + 1, right)
  {
    mid := pos + |left|;
    ReadsSplit(s, pos, left + [Word(op)], right);
    ReadsSplit(s, pos, left, [Word(op)]);
    ReadsOne(s, mid, Word(op));
  }

  // ----- every written token can be lexed -----

  predicate Clean(text: string) {
    text != "" && forall i :: 0 <= i < |text| ==> IsWordChar(text[i])
  }

  lemma {:induction false} JoinClean(parts: seq<string>, sep: char)
    requires parts != [] && IsWordChar(sep) && forall i :: 0 <= i < |parts| ==> Clean(parts[i])
    ensures Clean(Join(parts, sep))
  {
    if |parts| > 1 {
      JoinClean(parts[1..], sep);
    }
  }

  lemma DecClean(n: nat)
    ensures Clean(Dec(n))
  {
    DecIsDecimal(n);
  }

  lemma AddrClean(addr: AddrLit, ip6: Ipv6Notation)
    requires WritesIpv6(ip6)
    ensures Clean(AddrText(addr, ip6))
  {
    match addr
    case V4(a) =>
      forall i | 0 <= i < 4 ensures Clean(DecAll(OctetsOf(a))[i]) {
        DecClean(OctetsOf(a)[i]);
      }
      JoinClean(DecAll(OctetsOf(a)), '.');
    case V6(a) =>
      assert Ipv6Text(ip6.write(a));
  }

  lemma MacClean(mac: MacAddr)
    ensures Clean(MacText(mac))
  {
    forall i | 0 <= i < 6 ensures Clean(HexAll(mac)[i]) {
      HexPairPlain(mac[i]);
    }
    JoinClean(HexAll(mac), ':');
  }

  lemma NetClean(addr: AddrLit, prefix: Option<u8>, ip6: Ipv6Notation)
    requires WritesIpv6(ip6)
    ensures Clean(NetText(addr, prefix, ip6))
  {
    AddrClean(addr, ip6);
    if prefix.Some? {
      DecClean(prefix.value);
    }
  }

  lemma TypeClean(ty: PrimType, ip6: Ipv6Notation)
    requires WritesIpv6(ip6)
    ensures AllReadable(TypeTags(ty, ip6))
  {
    match ty
    case Host(addr) => AddrClean(addr, ip6);
    case Net(addr, prefix) => NetClean(addr, prefix, ip6);
    case Port(port) => DecClean(port);
    case PortRange(lo, hi) => DecClean(lo); DecClean(hi);
  }

  lemma PrimitiveClean(p: Primitive, ip6: Ipv6Notation)
    requires WritesIpv6(ip6)
    ensures AllReadable(PrimitiveTags(p, ip6))
  {
    TypeClean(p.ty, ip6);
    assert AllReadable(ProtoTags(p.proto)) && AllReadable(DirTags(p.dir));
  }

  lemma EtherWordsClean()
    ensures Readable(Word("ether")) && Readable(Word("host")) && Readable(Word("src")) && Readable(Word("dst"))
    ensures Readable(Word("proto")) && Readable(Word("broadcast")) && Readable(Word("multicast"))
  {
  }

  lemma EtherClean(kind: EtherKind)
    ensures EtherTags(kind) != [] && AllReadable(EtherTags(kind))
  {
    EtherWordsClean();
    match kind
    case EtherHost(mac, _) => MacClean(mac);
    case EtherProto(ethertype) => DecClean(ethertype);
    case Broadcast =>
    case Multicast =>
  }

  lemma CleanAround(a: seq<TokenTag>, op: TokenTag, b: seq<TokenTag>)
    requires Readable(op) && AllReadable(a) && AllReadable(b)
    ensures AllReadable(a + [op] + b)
  {
  }

  /** An expression is written in tokens the lexer can read. */
  lemma {:induction false} PrintClean(e: Expr, level: nat, ip6: Ipv6Notation)
    requires WritesIpv6(ip6)
    ensures Print(e, level, ip6) != [] && AllReadable(Print(e, level, ip6))
    decreases e, 1
  {
    BareClean(e, ip6);
    CleanAround([], LParen, Bare(e, ip6));
    CleanAround([LParen] + Bare(e, ip6), RParen, []);
    assert [] + [LParen] + Bare(e, ip6) == [LParen] + Bare(e, ip6);
    assert [LParen] + Bare(e, ip6) + [RParen] + [] == [LParen] + Bare(e, ip6) + [RParen];
  }

  lemma {:induction false} BareClean(e: Expr, ip6: Ipv6Notation)
    requires WritesIpv6(ip6)
    ensures Bare(e, ip6) != [] && AllReadable(Bare(e, ip6))
    decreases e, 0
  {
    match e
    case PrimExpr(p) =>
      PrimitiveClean(p, ip6);
    case EtherExpr(ether) =>
      EtherClean(ether.kind);
    case NotExpr(inner, _) =>
      PrintClean(inner, 2, ip6);
    case AndExpr(l, r, _) =>
      PrintClean(l, 1, ip6);
      PrintClean(r, 2, ip6);
      CleanAround(Print(l, 1, ip6), Word("and"), Print(r, 2, ip6));
    case OrExpr(l, r, _) =>
      PrintClean(l, 0, ip6);
      PrintClean(r, 1, ip6);
      CleanAround(Print(l, 0, ip6), Word("or"), Print(r, 1, ip6));
  }

  // ----- the round trips -----

  /** From tokens: parsing what was printed gives back the expression, but for its source spans. */
  lemma PrintedParses(s: Input, e: Expr)
    requires s.Valid() && WritesIpv6(s.ip6) && Writable(e)
    requires Tags(s.tokens) == Print(e, 0, s.ip6) + [Eof]
    ensures ParsedAll(s).Ok? && Stripped(ParsedAll(s).value) == Stripped(e)
  {
    var tags := Print(e, 0, s.ip6);
    assert forall i :: 0 <= i < |s.tokens| ==> s.tokens[i].tag == Tags(s.tokens)[i];
    PrintClean(e, 0, s.ip6);
    assert s.tokens[|tags|].tag == Eof && s.tokens[0].tag == tags[0];
    var e' := ReadsPrint(s, 0, e, 0);
    OrReads(s, 0, e', |tags|);
  }

  /** From text: lexing and parsing the printed text gives back the expression, but for its source
      spans. */
  lemma TextRoundTrip(e: Expr, ip6: Ipv6Notation)
    requires WritesIpv6(ip6) && Writable(e)
    ensures var tokens := LexFrom(Render(Print(e, 0, ip6)), 0);
            && tokens.Ok?
            && tokens.value[|tokens.value| - 1].tag == Eof
            && ParsedAll(Input(tokens.value, ip6)).Ok?
            && Stripped(ParsedAll(Input(tokens.value, ip6)).value) == Stripped(e)
  {
    var tags := Print(e, 0, ip6);
    var text := Render(tags);
    PrintClean(e, 0, ip6);
    assert text[0..] == text;
    LexRendered(text, 0, tags);
    assert Lexed(LexFrom(text, 0), text, 0);
    LexInOrder(text, 0);
    PrintedParses(Input(LexFrom(text, 0).value, ip6), e);
  }

  /** Two expressions that are printed alike are alike, but for their source spans. */
  lemma PrintIsInjective(e1: Expr, e2: Expr, ip6: Ipv6Notation)
    requires WritesIpv6(ip6) && Writable(e1) && Writable(e2)
    requires Print(e1, 0, ip6) == Print(e2, 0, ip6)
    ensures Stripped(e1) == Stripped(e2)
  {
    TextRoundTrip(e1, ip6);
    TextRoundTrip(e2, ip6);
  }
}
