/** The filter language as a grammar: which tokens spell which expression, in every way it can be written. The parser
    reads exactly those. */
module Grammar {
  import opened Words
  import opened Errors
  import opened Ast
  import opened Lexer
  import opened Literals
  import opened Parser
  import opened Printer
  import opened Notation
  import opened RoundTrip

  // ----- the leaves -----

  /** A word that reads as a number. */
  predicate NumberWord(tag: TokenTag, v: nat) {
    tag.Word? && Numeral(tag.text, 10, v)
  }

  ghost predicate TypePhrase(tags: seq<TokenTag>, ty: PrimType, ip6: Ipv6Notation) {
    match ty
    case Host(addr) =>
      |tags| == 2 && tags[0] == Word("host") && tags[1].Word? && AddressText(tags[1].text, addr, ip6)
    case Net(addr, prefix) =>
      |tags| == 2 && tags[0] == Word("net") && tags[1].Word? && NetworkText(tags[1].text, addr, prefix, ip6)
    case Port(port) =>
      |tags| == 2 && tags[0] == Word("port") && NumberWord(tags[1], port as nat)
    case PortRange(lo, hi) =>
      |tags| == 4 && tags[0] == Word("portrange") && NumberWord(tags[1], lo as nat) && tags[2] == Dash &&
      NumberWord(tags[3], hi as nat) && lo <= hi
  }

  predicate ProtoPhrase(tags: seq<TokenTag>, proto: Option<ProtoTag>) {
    match proto
    case None => tags == []
    case Some(IpTag) => tags == [Word("ip")]
    case Some(Ip6Tag) => tags == [Word("ip6")]
    case Some(ArpTag) => tags == [Word("arp")]
    case Some(TcpTag) => tags == [Word("tcp")]
    case Some(UdpTag) => tags == [Word("udp")]
    case Some(IcmpTag) => tags == [Word("icmp")]
  }

  predicate DirPhrase(tags: seq<TokenTag>, dir: Option<DirTag>) {
    match dir
    case None => tags == []
    case Some(Src) => tags == [Word("src")]
    case Some(Dst) => tags == [Word("dst")]
  }

  /** A protocol or none, a direction or none, and a type. */
  ghost predicate PrimitivePhrase(tags: seq<TokenTag>, p: Primitive, ip6: Ipv6Notation) {
    exists a, b, c :: tags == a + b + c && ProtoPhrase(a, p.proto) && DirPhrase(b, p.dir) && TypePhrase(c, p.ty, ip6)
  }

  ghost predicate MacWord(tag: TokenTag, mac: MacAddr) {
    tag.Word? && ColonHex(tag.text, mac)
  }

  ghost predicate EtherPhrase(tags: seq<TokenTag>, kind: EtherKind) {
    match kind
    case Broadcast => tags == [Word("broadcast")] || tags == [Word("ether"), Word("broadcast")]
    case Multicast => tags == [Word("multicast")] || tags == [Word("ether"), Word("multicast")]
    case EtherHost(mac, None) =>
      |tags| == 3 && tags[..2] == [Word("ether"), Word("host")] && MacWord(tags[2], mac)
    case EtherHost(mac, Some(Src)) =>
      || (|tags| == 3 && tags[..2] == [Word("ether"), Word("src")] && MacWord(tags[2], mac))
      || (|tags| == 4 && tags[..3] == [Word("ether"), Word("src"), Word("host")] && MacWord(tags[3], mac))
    case EtherHost(mac, Some(Dst)) =>
      || (|tags| == 3 && tags[..2] == [Word("ether"), Word("dst")] && MacWord(tags[2], mac))
      || (|tags| == 4 && tags[..3] == [Word("ether"), Word("dst"), Word("host")] && MacWord(tags[3], mac))
    case EtherProto(ethertype) =>
      |tags| == 3 && tags[..2] == [Word("ether"), Word("proto")] && tags[2].Word? &&
      EthertypeText(tags[2].text, ethertype)
  }

  // ----- the connectives -----

  /** From the first of these tokens to the last. */
  function Extent(tokens: seq<Token>): Span
    requires tokens != []
  {
    Span(tokens[0].at.start, tokens[|tokens| - 1].at.end)
  }

  /** Operands of `or`, any number of them, joined from the left. */
  ghost predicate OrPhrase(tokens: seq<Token>, e: Expr, ip6: Ipv6Notation)
    decreases |tokens|, 3
  {
    || AndPhrase(tokens, e, ip6)
    || (e.OrExpr? && e.at == Span(ExprSpan(e.left).start, ExprSpan(e.right).end) &&
        exists k: nat :: k < |tokens| && tokens[k].tag == Word("or") && OrPhrase(tokens[..k], e.left, ip6) &&
                         AndPhrase(tokens[k + 1..], e.right, ip6))
  }

  /** Operands of `and` likewise. */
  ghost predicate AndPhrase(tokens: seq<Token>, e: Expr, ip6: Ipv6Notation)
    decreases |tokens|, 2
  {
    || UnaryPhrase(tokens, e, ip6)
    || (e.AndExpr? && e.at == Span(ExprSpan(e.left).start, ExprSpan(e.right).end) &&
        exists k: nat :: k < |tokens| && tokens[k].tag == Word("and") && AndPhrase(tokens[..k], e.left, ip6) &&
                         UnaryPhrase(tokens[k + 1..], e.right, ip6))
  }

  /** Any number of `not`. */
  ghost predicate UnaryPhrase(tokens: seq<Token>, e: Expr, ip6: Ipv6Notation)
    decreases |tokens|, 1
  {
    || PrimaryPhrase(tokens, e, ip6)
    || (e.NotExpr? && tokens != [] && tokens[0].tag == Word("not") && UnaryPhrase(tokens[1..], e.inner, ip6) &&
        e.at == Span(tokens[0].at.start, ExprSpan(e.inner).end))
  }

  /** A leaf, or anything in parentheses. */
  ghost predicate PrimaryPhrase(tokens: seq<Token>, e: Expr, ip6: Ipv6Notation)
    decreases |tokens|, 0
  {
    tokens != [] &&
    (|| (e.PrimExpr? && PrimitivePhrase(Tags(tokens), e.prim, ip6) && e.prim.at == Extent(tokens))
     || (e.EtherExpr? && EtherPhrase(Tags(tokens), e.ether.kind) && e.ether.at == Extent(tokens))
     || (|tokens| >= 2 && tokens[0].tag == LParen && tokens[|tokens| - 1].tag == RParen &&
         OrPhrase(tokens[1..|tokens| - 1], e, ip6)))
  }

  // ----- what is read is spelled -----

  /** The tags from token `from` up to token `end`. */
  function TagsFrom(s: Input, from: nat, end: nat): seq<TokenTag>
    requires from <= end <= |s.tokens|
  {
    seq(end - from, i requires 0 <= i < end - from => s.tokens[from + i].tag)
  }

  lemma TagsOfSlice(s: Input, from: nat, end: nat)
    requires from <= end <= |s.tokens|
    ensures Tags(s.tokens[from..end]) == TagsFrom(s, from, end)
  {
  }

  lemma TagsSplit(s: Input, from: nat, mid: nat, end: nat)
    requires from <= mid <= end <= |s.tokens|
    ensures TagsFrom(s, from, end) == TagsFrom(s, from, mid) + TagsFrom(s, mid, end)
    ensures TagsFrom(s, from, end)[..mid - from] == TagsFrom(s, from, mid)
    ensures TagsFrom(s, from, end)[mid - from..] == TagsFrom(s, mid, end)
  {
  }

  ghost predicate PrimitiveSpelled(s: Input, pos: nat, r: Parsed<Primitive>)
    requires s.Valid() && pos < |s.tokens|
  {
    r.Ok? ==>
      pos < r.value.1 < |s.tokens| && PrimitivePhrase(TagsFrom(s, pos, r.value.1), r.value.0, s.ip6) &&
      r.value.0.at == Extent(s.tokens[pos..r.value.1])
  }

  lemma HostSpelled(s: Input, pos: nat)
    requires s.Valid() && 0 < pos < |s.tokens| && s.tokens[pos - 1].tag == Word("host")
    ensures var r := HostAt(s, pos); r.Ok? ==> TypePhrase(TagsFrom(s, pos - 1, r.value.1), r.value.0, s.ip6)
  {
    var r := HostAt(s, pos);
    if r.Ok? {
      var w := s.tokens[pos].tag.text;
      var a := AddrLiteral(w, s.tokens[pos].at, false, s.ip6).value;
      ReadsNetwork(w, s.tokens[pos].at, false, s.ip6, a.0, a.1);
    }
  }

  lemma NetSpelled(s: Input, pos: nat)
    requires s.Valid() && 0 < pos < |s.tokens| && s.tokens[pos - 1].tag == Word("net")
    ensures var r := NetAt(s, pos); r.Ok? ==> TypePhrase(TagsFrom(s, pos - 1, r.value.1), r.value.0, s.ip6)
  {
    var r := NetAt(s, pos);
    if r.Ok? {
      var w := s.tokens[pos].tag.text;
      var a := AddrLiteral(w, s.tokens[pos].at, true, s.ip6).value;
      ReadsNetwork(w, s.tokens[pos].at, true, s.ip6, a.0, a.1);
    }
  }

  lemma PortSpelled(s: Input, pos: nat)
    requires s.Valid() && pos < |s.tokens|
    ensures var r := PortAt(s, pos); r.Ok? ==> NumberWord(s.tokens[pos].tag, r.value.0 as nat)
  {
    var r := PortAt(s, pos);
    if r.Ok? {
      ReadsPort(s.tokens[pos].tag.text, s.tokens[pos].at, r.value.0);
    }
  }

  lemma PortRangeSpelled(s: Input, start: nat, pos: nat)
    requires s.Valid() && 0 < pos < |s.tokens| && s.tokens[pos - 1].tag == Word("portrange")
    ensures var r := PortRangeAt(s, start, pos); r.Ok? ==> TypePhrase(TagsFrom(s, pos - 1, r.value.1), r.value.0, s.ip6)
  {
    var r := PortRangeAt(s, start, pos);
    if r.Ok? {
      PortSpelled(s, pos);
      PortSpelled(s, pos + 2);
    }
  }

  lemma TypeSpelled(s: Input, start: nat, pos: nat)
    requires s.Valid() && pos + 1 < |s.tokens| && s.tokens[pos].tag.Word?
    ensures var r := TypeAt(s, start, s.tokens[pos].tag.text, s.tokens[pos].at, pos + 1);
            r.Ok? ==> TypePhrase(TagsFrom(s, pos, r.value.1), r.value.0, s.ip6)
  {
    var ty := s.tokens[pos].tag.text;
    var r := TypeAt(s, start, ty, s.tokens[pos].at, pos + 1);
    if ty == "host" {
      HostSpelled(s, pos + 1);
      assert r == HostAt(s, pos + 1);
    } else if ty == "net" {
      NetSpelled(s, pos + 1);
      assert r == NetAt(s, pos + 1);
    } else if ty == "port" {
      OnePortSpelled(s, start, pos);
    } else if ty == "portrange" {
      PortRangeSpelled(s, start, pos + 1);
      assert r == PortRangeAt(s, start, pos + 1);
    } else {
      assert r.Err?;
    }
  }

  lemma OnePortSpelled(s: Input, start: nat, pos: nat)
    requires s.Valid() && pos + 1 < |s.tokens| && s.tokens[pos].tag == Word("port")
    ensures var r := TypeAt(s, start, "port", s.tokens[pos].at, pos + 1);
            r.Ok? ==> TypePhrase(TagsFrom(s, pos, r.value.1), r.value.0, s.ip6)
  {
    PortSpelled(s, pos + 1);
  }

  lemma ProtoSpelled(tag: TokenTag)
    ensures ProtoWord(tag).Some? ==> ProtoPhrase([tag], ProtoWord(tag))
  {
  }

  lemma DirSpelled(tag: TokenTag)
    ensures DirWord(tag).Some? ==> DirPhrase([tag], DirWord(tag))
  {
  }

  /** The tokens from `pos` to `p1` are the protocol, if there is one. */
  lemma QualifierSpelled(s: Input, pos: nat, p1: nat)
    requires s.Valid() && pos < |s.tokens| && p1 == Past(s, pos, ProtoWord(s.tokens[pos].tag).Some?)
    ensures ProtoPhrase(TagsFrom(s, pos, p1), ProtoWord(s.tokens[pos].tag))
  {
    ProtoSpelled(s.tokens[pos].tag);
    assert p1 > pos ==> TagsFrom(s, pos, p1) == [s.tokens[pos].tag];
  }

  lemma DirectionSpelled(s: Input, pos: nat, p1: nat)
    requires s.Valid() && pos < |s.tokens| && p1 == Past(s, pos, DirWord(s.tokens[pos].tag).Some?)
    ensures DirPhrase(TagsFrom(s, pos, p1), DirWord(s.tokens[pos].tag))
  {
    DirSpelled(s.tokens[pos].tag);
    assert p1 > pos ==> TagsFrom(s, pos, p1) == [s.tokens[pos].tag];
  }

  lemma UnqualifiedSpelled(s: Input, start: nat, proto: Option<ProtoTag>, dir: Option<DirTag>, pos: nat)
    requires s.Valid() && pos < |s.tokens|
    ensures var r := UnqualifiedAt(s, start, proto, dir, pos);
            r.Ok? ==> r.value.0.proto == proto && r.value.0.dir == dir &&
                      r.value.0.at == Span(start, s.tokens[r.value.1 - 1].at.end) &&
                      TypePhrase(TagsFrom(s, pos, r.value.1), r.value.0.ty, s.ip6)
  {
    if s.tokens[pos].tag.Word? {
      var ty := TypeAt(s, start, s.tokens[pos].tag.text, s.tokens[pos].at, pos + 1);
      UnqualifiedUnfolds(s, start, proto, dir, pos);
      TypeSpelled(s, start, pos);
      QualifiedSpelled(s, start, proto, dir, pos, ty);
    } else {
      assert WordAt(s, pos, EXPECT_TYPE).Err?;
    }
  }

  lemma QualifiedSpelled(s: Input, start: nat, proto: Option<ProtoTag>, dir: Option<DirTag>, pos: nat,
        ty: Parsed<PrimType>)
    requires pos <= |s.tokens|
    requires ty.Ok? ==> pos < ty.value.1 < |s.tokens| && TypePhrase(TagsFrom(s, pos, ty.value.1), ty.value.0, s.ip6)
    ensures var r := Qualified(s, start, proto, dir, ty);
            r.Ok? ==> r.value.1 == ty.value.1 && r.value.0.proto == proto && r.value.0.dir == dir &&
                      r.value.0.at == Span(start, s.tokens[r.value.1 - 1].at.end) &&
                      TypePhrase(TagsFrom(s, pos, r.value.1), r.value.0.ty, s.ip6)
  {
  }

  lemma PrimitiveIsSpelled(s: Input, pos: nat)
    requires s.Valid() && pos < |s.tokens|
    ensures PrimitiveSpelled(s, pos, PrimitiveAt(s, pos))
  {
    var proto := ProtoWord(s.tokens[pos].tag);
    var p1 := Past(s, pos, proto.Some?);
    var dir := DirWord(s.tokens[p1].tag);
    var p2 := Past(s, p1, dir.Some?);
    QualifierSpelled(s, pos, p1);
    DirectionSpelled(s, p1, p2);
    UnqualifiedSpelled(s, s.tokens[pos].at.start, proto, dir, p2);
    var r := UnqualifiedAt(s, s.tokens[pos].at.start, proto, dir, p2);
    PartsMakePrimitive(s, pos, p1, p2, proto, dir, r);
    PrimitiveUnfolds(s, pos, p1, p2);
  }

  lemma PartsMakePrimitive(s: Input, pos: nat, p1: nat, p2: nat, proto: Option<ProtoTag>, dir: Option<DirTag>,
        r: Parsed<Primitive>)
    requires s.Valid() && pos <= p1 <= p2 < |s.tokens|
    requires ProtoPhrase(TagsFrom(s, pos, p1), proto) && DirPhrase(TagsFrom(s, p1, p2), dir)
    requires r.Ok? ==> p2 < r.value.1 < |s.tokens| && r.value.0.proto == proto && r.value.0.dir == dir &&
                       r.value.0.at == Span(s.tokens[pos].at.start, s.tokens[r.value.1 - 1].at.end) &&
                       TypePhrase(TagsFrom(s, p2, r.value.1), r.value.0.ty, s.ip6)
    ensures PrimitiveSpelled(s, pos, r)
  {
    if r.Ok? {
      ThreeParts(s, pos, p1, p2, r.value.0, r.value.1);
      ExtentIs(s, pos, r.value.1);
    }
  }

  lemma PrimitiveUnfolds(s: Input, pos: nat, p1: nat, p2: nat)
    requires s.Valid() && pos < |s.tokens| && p1 == Past(s, pos, ProtoWord(s.tokens[pos].tag).Some?)
    requires p2 == Past(s, p1, DirWord(s.tokens[p1].tag).Some?)
    ensures PrimitiveAt(s, pos) ==
            UnqualifiedAt(s, s.tokens[pos].at.start, ProtoWord(s.tokens[pos].tag), DirWord(s.tokens[p1].tag), p2)
  {
  }

  lemma ExtentIs(s: Input, pos: nat, end: nat)
    requires pos < end <= |s.tokens|
    ensures Extent(s.tokens[pos..end]) == Span(s.tokens[pos].at.start, s.tokens[end - 1].at.end)
  {
  }

  lemma ThreeParts(s: Input, pos: nat, p1: nat, p2: nat, p: Primitive, end: nat)
    requires pos <= p1 <= p2 <= end <= |s.tokens|
    requires ProtoPhrase(TagsFrom(s, pos, p1), p.proto) && DirPhrase(TagsFrom(s, p1, p2), p.dir)
    requires TypePhrase(TagsFrom(s, p2, end), p.ty, s.ip6)
    ensures PrimitivePhrase(TagsFrom(s, pos, end), p, s.ip6)
  {
    TagsSplit(s, pos, p1, end);
    TagsSplit(s, p1, p2, end);
    var a, b, c := TagsFrom(s, pos, p1), TagsFrom(s, p1, p2), TagsFrom(s, p2, end);
    assert TagsFrom(s, pos, end) == a + b + c;
  }

  // ----- the link layer -----

  lemma MacSpelled(s: Input, pos: nat, dir: Option<DirTag>)
    requires s.Valid() && pos < |s.tokens|
    ensures var r := MacAt(s, pos, dir);
            r.Ok? ==> r.value.1 == pos + 1 && r.value.0.EtherHost? && r.value.0.dir == dir &&
                      MacWord(s.tokens[pos].tag, r.value.0.mac)
  {
    var r := MacAt(s, pos, dir);
    if r.Ok? {
      ReadsColonHex(s.tokens[pos].tag.text, s.tokens[pos].at, r.value.0.mac);
    }
  }

  lemma EtherProtoSpelled(s: Input, pos: nat)
    requires s.Valid() && pos < |s.tokens| && IsWord(s, pos, "proto")
    ensures var r := EtherKindAt(s, pos);
            r.Ok? ==> r.value.1 == pos + 2 && r.value.0.EtherProto? && s.tokens[pos + 1].tag.Word? &&
                      EthertypeText(s.tokens[pos + 1].tag.text, r.value.0.ethertype)
  {
    var r := EtherKindAt(s, pos);
    if r.Ok? {
      ReadsEthertypeText(s.tokens[pos + 1].tag.text, s.tokens[pos + 1].at, r.value.0.ethertype);
    }
  }

  /** The words after `ether`. */
  lemma EtherKindSpelled(s: Input, pos: nat)
    requires s.Valid() && pos + 1 < |s.tokens| && IsWord(s, pos, "ether")
    ensures var r := EtherKindAt(s, pos + 1); r.Ok? ==> EtherPhrase(TagsFrom(s, pos, r.value.1), r.value.0)
  {
    var r := EtherKindAt(s, pos + 1);
    if r.Ok? {
      var w := s.tokens[pos + 1].tag.text;
      if w == "host" || w == "src" || w == "dst" {
        EtherHostSpelled(s, pos);
      } else if w == "proto" {
        EtherProtoSpelled(s, pos + 1);
        TwoWords(s, pos, pos + 3);
      } else {
        assert TagsFrom(s, pos, pos + 2) == [Word("ether"), Word(w)];
      }
    }
  }

  lemma TwoWords(s: Input, pos: nat, end: nat)
    requires pos + 2 <= end <= |s.tokens|
    ensures TagsFrom(s, pos, end)[..2] == [s.tokens[pos].tag, s.tokens[pos + 1].tag]
    ensures end >= pos + 3 ==>
              TagsFrom(s, pos, end)[..3] == [s.tokens[pos].tag, s.tokens[pos + 1].tag, s.tokens[pos + 2].tag]
  {
  }

  lemma EtherHostSpelled(s: Input, pos: nat)
    requires s.Valid() && pos + 1 < |s.tokens| && IsWord(s, pos, "ether")
    requires IsWord(s, pos + 1, "host") || IsWord(s, pos + 1, "src") || IsWord(s, pos + 1, "dst")
    ensures var r := EtherKindAt(s, pos + 1); r.Ok? ==> EtherPhrase(TagsFrom(s, pos, r.value.1), r.value.0)
  {
    var w, p := s.tokens[pos + 1].tag.text, pos + 2;
    var r := EtherKindAt(s, pos + 1);
    if r.Ok? {
      if w == "host" {
        MacSpelled(s, p, None);
        TwoWords(s, pos, p + 1);
      } else {
        var dir := if w == "src" then Src else Dst;
        var q := Past(s, p, IsWord(s, p, "host"));
        assert r == MacAt(s, q, Some(dir));
        MacSpelled(s, q, Some(dir));
        TwoWords(s, pos, q + 1);
      }
    }
  }

  lemma EtherSpelled(s: Input, pos: nat)
    requires s.Valid() && pos < |s.tokens| && StartsEther(s.tokens[pos].tag)
    ensures var r := EtherAt(s, pos);
            r.Ok? ==> EtherPhrase(TagsFrom(s, pos, r.value.1), r.value.0.kind) &&
                      r.value.0.at == Extent(s.tokens[pos..r.value.1])
  {
    if IsWord(s, pos, "ether") {
      EtherWordSpelled(s, pos);
    } else {
      BareEtherSpelled(s, pos);
    }
  }

  lemma EtherWordSpelled(s: Input, pos: nat)
    requires s.Valid() && pos < |s.tokens| && IsWord(s, pos, "ether")
    ensures var r := EtherAt(s, pos);
            r.Ok? ==> EtherPhrase(TagsFrom(s, pos, r.value.1), r.value.0.kind) &&
                      r.value.0.at == Extent(s.tokens[pos..r.value.1])
  {
    if pos + 1 < |s.tokens| {
      EtherKindSpelled(s, pos);
      KindInExtent(s, pos, EtherKindAt(s, pos + 1), EtherAt(s, pos));
    }
  }

  lemma KindInExtent(s: Input, pos: nat, kind: Parsed<EtherKind>, r: Parsed<EtherPrimitive>)
    requires pos < |s.tokens|
    requires kind.Ok? ==> pos < kind.value.1 < |s.tokens| && r.Ok? && r.value.1 == kind.value.1 &&
                          r.value.0.kind == kind.value.0 &&
                          r.value.0.at == Span(s.tokens[pos].at.start, s.tokens[r.value.1 - 1].at.end)
    requires r.Ok? ==> kind.Ok?
    ensures r.Ok? ==> r.value.0.kind == kind.value.0 && r.value.0.at == Extent(s.tokens[pos..r.value.1])
  {
  }

  lemma BareEtherSpelled(s: Input, pos: nat)
    requires s.Valid() && pos < |s.tokens| && (IsWord(s, pos, "broadcast") || IsWord(s, pos, "multicast"))
    ensures var r := EtherAt(s, pos);
            r.Ok? && EtherPhrase(TagsFrom(s, pos, r.value.1), r.value.0.kind) &&
            r.value.0.at == Extent(s.tokens[pos..r.value.1])
  {
    ExtentIs(s, pos, pos + 1);
    assert TagsFrom(s, pos, pos + 1) == [s.tokens[pos].tag];
  }

  // ----- the connectives -----

  ghost predicate OrSpelled(s: Input, pos: nat, r: Parsed<Expr>)
    requires s.Valid() && pos < |s.tokens|
  {
    r.Ok? ==> pos <= r.value.1 < |s.tokens| && OrPhrase(s.tokens[pos..r.value.1], r.value.0, s.ip6)
  }

  ghost predicate AndSpelled(s: Input, pos: nat, r: Parsed<Expr>)
    requires s.Valid() && pos < |s.tokens|
  {
    r.Ok? ==> pos <= r.value.1 < |s.tokens| && AndPhrase(s.tokens[pos..r.value.1], r.value.0, s.ip6)
  }

  ghost predicate UnarySpelled(s: Input, pos: nat, r: Parsed<Expr>)
    requires s.Valid() && pos < |s.tokens|
  {
    r.Ok? ==> pos <= r.value.1 < |s.tokens| && UnaryPhrase(s.tokens[pos..r.value.1], r.value.0, s.ip6)
  }

  lemma OrOfPhrases(s: Input, from: nat, mid: nat, end: nat, l: Expr, r: Expr)
    requires from <= mid < end <= |s.tokens| && s.tokens[mid].tag == Word("or")
    requires OrPhrase(s.tokens[from..mid], l, s.ip6) && AndPhrase(s.tokens[mid + 1..end], r, s.ip6)
    ensures OrPhrase(s.tokens[from..end], OrExpr(l, r, Span(ExprSpan(l).start, ExprSpan(r).end)), s.ip6)
  {
    SlicesAt(s, from, mid - from, end);
  }

  lemma AndOfPhrases(s: Input, from: nat, mid: nat, end: nat, l: Expr, r: Expr)
    requires from <= mid < end <= |s.tokens| && s.tokens[mid].tag == Word("and")
    requires AndPhrase(s.tokens[from..mid], l, s.ip6) && UnaryPhrase(s.tokens[mid + 1..end], r, s.ip6)
    ensures AndPhrase(s.tokens[from..end], AndExpr(l, r, Span(ExprSpan(l).start, ExprSpan(r).end)), s.ip6)
  {
    SlicesAt(s, from, mid - from, end);
  }

  lemma NotOfPhrase(s: Input, pos: nat, end: nat, e: Expr)
    requires pos < end <= |s.tokens| && s.tokens[pos].tag == Word("not")
    requires UnaryPhrase(s.tokens[pos + 1..end], e, s.ip6)
    ensures UnaryPhrase(s.tokens[pos..end], NotExpr(e, Span(s.tokens[pos].at.start, ExprSpan(e).end)), s.ip6)
  {
    SlicesAt(s, pos, 0, end);
  }

  lemma GroupOfPhrase(s: Input, pos: nat, end: nat, e: Expr)
    requires pos + 1 < end <= |s.tokens| && s.tokens[pos].tag == LParen && s.tokens[end - 1].tag == RParen
    requires OrPhrase(s.tokens[pos + 1..end - 1], e, s.ip6)
    ensures UnaryPhrase(s.tokens[pos..end], e, s.ip6)
  {
    var tokens := s.tokens[pos..end];
    assert tokens[1..|tokens| - 1] == s.tokens[pos + 1..end - 1];
    assert PrimaryPhrase(tokens, e, s.ip6);
  }

  lemma OneTag(s: Input, pos: nat)
    requires pos < |s.tokens|
    ensures TagsFrom(s, pos, pos + 1) == [s.tokens[pos].tag]
  {
  }

  /** A stretch of the tokens: one of them, and what stands before and behind it. */
  lemma SlicesAt(s: Input, pos: nat, k: nat, end: nat)
    requires pos <= end <= |s.tokens| && k < end - pos
    ensures s.tokens[pos..end][k] == s.tokens[pos + k]
    ensures s.tokens[pos..end][..k] == s.tokens[pos..pos + k]
    ensures s.tokens[pos..end][k + 1..] == s.tokens[pos + k + 1..end]
  {
  }

  lemma {:induction false} OrIsSpelled(s: Input, pos: nat)
    requires s.Valid() && pos < |s.tokens|
    ensures OrSpelled(s, pos, OrAt(s, pos))
    decreases |s.tokens| - pos, 5
  {
    AndIsSpelled(s, pos);
    var r := AndAt(s, pos);
    if r.Ok? {
      OrTailSpelled(s, pos, r.value.0, r.value.1);
    }
  }

  lemma {:induction false} OrTailSpelled(s: Input, from: nat, lhs: Expr, pos: nat)
    requires s.Valid() && from < pos < |s.tokens| && OrPhrase(s.tokens[from..pos], lhs, s.ip6)
    ensures OrSpelled(s, from, OrTail(s, lhs, pos))
    decreases |s.tokens| - pos, 4
  {
    if IsWord(s, pos, "or") {
      AndIsSpelled(s, pos + 1);
      var r := AndAt(s, pos + 1);
      if r.Ok? {
        var (rhs, p) := r.value;
        var at := Span(ExprSpan(lhs).start, ExprSpan(rhs).end);
        OrOfPhrases(s, from, pos, p, lhs, rhs);
        OrTailSpelled(s, from, OrExpr(lhs, rhs, at), p);
      }
    }
  }

  lemma {:induction false} AndIsSpelled(s: Input, pos: nat)
    requires s.Valid() && pos < |s.tokens|
    ensures AndSpelled(s, pos, AndAt(s, pos))
    decreases |s.tokens| - pos, 3
  {
    UnaryIsSpelled(s, pos);
    var r := UnaryAt(s, pos);
    if r.Ok? {
      AndTailSpelled(s, pos, r.value.0, r.value.1);
    }
  }

  lemma {:induction false} AndTailSpelled(s: Input, from: nat, lhs: Expr, pos: nat)
    requires s.Valid() && from < pos < |s.tokens| && AndPhrase(s.tokens[from..pos], lhs, s.ip6)
    ensures AndSpelled(s, from, AndTail(s, lhs, pos))
    decreases |s.tokens| - pos, 2
  {
    if IsWord(s, pos, "and") {
      UnaryIsSpelled(s, pos + 1);
      var r := UnaryAt(s, pos + 1);
      if r.Ok? {
        var (rhs, p) := r.value;
        var at := Span(ExprSpan(lhs).start, ExprSpan(rhs).end);
        AndOfPhrases(s, from, pos, p, lhs, rhs);
        AndTailSpelled(s, from, AndExpr(lhs, rhs, at), p);
      }
    }
  }

  lemma {:induction false} UnaryIsSpelled(s: Input, pos: nat)
    requires s.Valid() && pos < |s.tokens|
    ensures UnarySpelled(s, pos, UnaryAt(s, pos))
    decreases |s.tokens| - pos, 1
  {
    if IsWord(s, pos, "not") {
      UnaryIsSpelled(s, pos + 1);
      var r := UnaryAt(s, pos + 1);
      if r.Ok? {
        var (inner, p) := r.value;
        NotOfPhrase(s, pos, p, inner);
      }
    } else {
      PrimaryIsSpelled(s, pos);
    }
  }

  lemma {:induction false} PrimaryIsSpelled(s: Input, pos: nat)
    requires s.Valid() && pos < |s.tokens|
    ensures UnarySpelled(s, pos, PrimaryAt(s, pos))
    decreases |s.tokens| - pos, 0
  {
    match s.tokens[pos].tag
    case LParen =>
      OrIsSpelled(s, pos + 1);
      GroupSpelled(s, pos);
    case Word(w) =>
      LeafSpelled(s, pos);
    case _ =>
  }

  lemma LeafIsUnary(tokens: seq<Token>, e: Expr, ip6: Ipv6Notation)
    requires tokens != [] && (e.PrimExpr? || e.EtherExpr?) && ExprSpan(e) == Extent(tokens)
    requires if e.PrimExpr? then PrimitivePhrase(Tags(tokens), e.prim, ip6) else EtherPhrase(Tags(tokens), e.ether.kind)
    ensures UnaryPhrase(tokens, e, ip6)
  {
    assert PrimaryPhrase(tokens, e, ip6);
  }

  lemma LeafSpelled(s: Input, pos: nat)
    requires s.Valid() && pos < |s.tokens| && s.tokens[pos].tag.Word?
    ensures UnarySpelled(s, pos, PrimaryAt(s, pos))
  {
    if StartsEther(s.tokens[pos].tag) {
      EtherSpelled(s, pos);
      var r := EtherAt(s, pos);
      if r.Ok? {
        TagsOfSlice(s, pos, r.value.1);
        LeafIsUnary(s.tokens[pos..r.value.1], EtherExpr(r.value.0), s.ip6);
      }
    } else {
      PrimitiveIsSpelled(s, pos);
      var r := PrimitiveAt(s, pos);
      if r.Ok? {
        TagsOfSlice(s, pos, r.value.1);
        LeafIsUnary(s.tokens[pos..r.value.1], PrimExpr(r.value.0), s.ip6);
      }
    }
  }

  lemma GroupSpelled(s: Input, pos: nat)
    requires s.Valid() && pos + 1 < |s.tokens| && s.tokens[pos].tag.LParen? && OrSpelled(s, pos + 1, OrAt(s, pos + 1))
    ensures UnarySpelled(s, pos, PrimaryAt(s, pos))
  {
    var r := OrAt(s, pos + 1);
    if r.Ok? && s.tokens[r.value.1].tag.RParen? {
      var (inner, p) := r.value;
      GroupOfPhrase(s, pos, p + 1, inner);
    }
  }

  // ----- what is spelled is read -----

  lemma HostPhraseReads(s: Input, start: nat, pos: nat, addr: AddrLit)
    requires s.Valid() && pos + 2 < |s.tokens| && TypePhrase(TagsFrom(s, pos, pos + 2), Host(addr), s.ip6)
    ensures s.tokens[pos].tag == Word("host") && TypeReads(s, start, pos, Host(addr), pos + 2)
  {
    var tags := TagsFrom(s, pos, pos + 2);
    assert s.tokens[pos].tag == tags[0] && s.tokens[pos + 1].tag == tags[1];
    ReadsNetwork(tags[1].text, s.tokens[pos + 1].at, false, s.ip6, addr, None);
  }

  lemma NetPhraseReads(s: Input, start: nat, pos: nat, addr: AddrLit, prefix: Option<u8>)
    requires s.Valid() && pos + 2 < |s.tokens| && TypePhrase(TagsFrom(s, pos, pos + 2), Net(addr, prefix), s.ip6)
    ensures s.tokens[pos].tag == Word("net") && TypeReads(s, start, pos, Net(addr, prefix), pos + 2)
  {
    var tags := TagsFrom(s, pos, pos + 2);
    assert s.tokens[pos].tag == tags[0] && s.tokens[pos + 1].tag == tags[1];
    ReadsNetwork(tags[1].text, s.tokens[pos + 1].at, true, s.ip6, addr, prefix);
  }

  lemma PortPhraseReads(s: Input, start: nat, pos: nat, port: u16)
    requires s.Valid() && pos + 2 < |s.tokens| && TypePhrase(TagsFrom(s, pos, pos + 2), Port(port), s.ip6)
    ensures s.tokens[pos].tag == Word("port") && TypeReads(s, start, pos, Port(port), pos + 2)
  {
    var tags := TagsFrom(s, pos, pos + 2);
    assert s.tokens[pos].tag == tags[0] && s.tokens[pos + 1].tag == tags[1];
    ReadsPort(tags[1].text, s.tokens[pos + 1].at, port);
  }

  lemma RangePhraseReads(s: Input, start: nat, pos: nat, lo: u16, hi: u16)
    requires s.Valid() && pos + 4 < |s.tokens| && TypePhrase(TagsFrom(s, pos, pos + 4), PortRange(lo, hi), s.ip6)
    ensures s.tokens[pos].tag == Word("portrange") && TypeReads(s, start, pos, PortRange(lo, hi), pos + 4)
  {
    var tags := TagsFrom(s, pos, pos + 4);
    assert s.tokens[pos].tag == tags[0] && s.tokens[pos + 1].tag == tags[1];
    assert s.tokens[pos + 2].tag == tags[2] && s.tokens[pos + 3].tag == tags[3];
    ReadsPort(tags[1].text, s.tokens[pos + 1].at, lo);
    ReadsPort(tags[3].text, s.tokens[pos + 3].at, hi);
    assert PortRangeAt(s, start, pos + 1) == Ok((PortRange(lo, hi), pos + 4));
  }

  lemma TypePhraseReads(s: Input, start: nat, pos: nat, ty: PrimType, end: nat)
    requires s.Valid() && pos <= end < |s.tokens| && TypePhrase(TagsFrom(s, pos, end), ty, s.ip6)
    ensures pos + 1 < end && s.tokens[pos].tag == TypeTags(ty, s.ip6)[0] && TypeReads(s, start, pos, ty, end)
  {
    match ty
    case Host(addr) => HostPhraseReads(s, start, pos, addr);
    case Net(addr, prefix) => NetPhraseReads(s, start, pos, addr, prefix);
    case Port(port) => PortPhraseReads(s, start, pos, port);
    case PortRange(lo, hi) => RangePhraseReads(s, start, pos, lo, hi);
  }

  lemma QualifierPhrases(a: seq<TokenTag>, proto: Option<ProtoTag>, b: seq<TokenTag>, dir: Option<DirTag>)
    requires ProtoPhrase(a, proto) && DirPhrase(b, dir)
    ensures a == ProtoTags(proto) && b == DirTags(dir)
  {
  }

  lemma PrimitivePhraseReads(s: Input, pos: nat, p: Primitive, end: nat)
    requires s.Valid() && pos < end < |s.tokens| && PrimitivePhrase(TagsFrom(s, pos, end), p, s.ip6)
    requires p.at == Span(s.tokens[pos].at.start, s.tokens[end - 1].at.end)
    ensures ReadsAs(s, pos, 2, PrimExpr(p), end)
  {
    var p2 := TypeBegins(s, pos, p, end);
    TypePhraseReads(s, s.tokens[pos].at.start, p2, p.ty, end);
    StandsAsRead(s, pos, p2, ProtoTags(p.proto) + DirTags(p.dir));
    PartsAreRead(s, pos, p2, p, end);
  }

  lemma PartsAreRead(s: Input, pos: nat, p2: nat, p: Primitive, end: nat)
    requires s.Valid() && Reads(s, pos, ProtoTags(p.proto) + DirTags(p.dir))
    requires p2 == pos + |ProtoTags(p.proto) + DirTags(p.dir)| && p2 + 1 < end < |s.tokens|
    requires s.tokens[p2].tag == TypeTags(p.ty, s.ip6)[0]
    requires TypeReads(s, s.tokens[pos].at.start, p2, p.ty, end)
    requires p.at == Span(s.tokens[pos].at.start, s.tokens[end - 1].at.end)
    ensures ReadsAs(s, pos, 2, PrimExpr(p), end)
  {
    TypeWord(p.ty, s.ip6);
    UnqualifiedIsType(s, s.tokens[pos].at.start, p, p2, end);
    QualifiedRead(s, pos, p, end);
    PrimitiveJoins(s, pos, p, end);
  }

  /** Where the qualifiers of a primitive end and its type begins. */
  lemma TypeBegins(s: Input, pos: nat, p: Primitive, end: nat) returns (p2: nat)
    requires pos <= end <= |s.tokens| && PrimitivePhrase(TagsFrom(s, pos, end), p, s.ip6)
    ensures pos <= p2 <= end && p2 == pos + |ProtoTags(p.proto) + DirTags(p.dir)|
    ensures TagsFrom(s, pos, p2) == ProtoTags(p.proto) + DirTags(p.dir)
    ensures TypePhrase(TagsFrom(s, p2, end), p.ty, s.ip6)
  {
    var tags := TagsFrom(s, pos, end);
    var a, b, c :| tags == a + b + c && ProtoPhrase(a, p.proto) && DirPhrase(b, p.dir) && TypePhrase(c, p.ty, s.ip6);
    QualifierPhrases(a, p.proto, b, p.dir);
    p2 := pos + |a| + |b|;
    TagsSplit(s, pos, p2, end);
    assert TagsFrom(s, p2, end) == c && TagsFrom(s, pos, p2) == a + b;
  }

  lemma StandsAsRead(s: Input, pos: nat, end: nat, tags: seq<TokenTag>)
    requires pos <= end < |s.tokens| && TagsFrom(s, pos, end) == tags
    ensures Reads(s, pos, tags)
  {
    forall i | 0 <= i < |tags| ensures s.tokens[pos + i].tag == tags[i] {
      assert TagsFrom(s, pos, end)[i] == tags[i];
    }
  }

  lemma MacHasColon(text: string, mac: MacAddr)
    requires ColonHex(text, mac)
    ensures text != "host"
  {
    var parts :| |parts| == 6 && Parts(text, ':', parts) && AreMacOctets(parts, mac);
    assert text == parts[0] + [':'] + Join(parts[1..], ':');
    assert text[2] == ':';
  }

  lemma MacPhraseReads(s: Input, pos: nat, mac: MacAddr, dir: Option<DirTag>)
    requires s.Valid() && pos + 1 < |s.tokens| && MacWord(s.tokens[pos].tag, mac)
    ensures MacAt(s, pos, dir) == Ok((EtherHost(mac, dir), pos + 1)) && !IsWord(s, pos, "host")
  {
    ReadsColonHex(s.tokens[pos].tag.text, s.tokens[pos].at, mac);
    MacHasColon(s.tokens[pos].tag.text, mac);
  }

  /** The link-layer words from `pos` to `end`, `ether` in front, are read as this kind. */
  lemma EtherKindReads(s: Input, pos: nat, kind: EtherKind, end: nat)
    requires s.Valid() && pos + 1 < end < |s.tokens| && EtherPhrase(TagsFrom(s, pos, end), kind)
    ensures IsWord(s, pos, "ether") && EtherKindAt(s, pos + 1) == Ok((kind, end))
  {
    var tags := TagsFrom(s, pos, end);
    assert tags[0] == s.tokens[pos].tag && tags[1] == s.tokens[pos + 1].tag;
    match kind
    case EtherHost(mac, dir) => EtherHostPhraseReads(s, pos, mac, dir, end);
    case EtherProto(ethertype) =>
      TwoWords(s, pos, end);
      assert tags[2] == s.tokens[pos + 2].tag;
      ReadsEthertypeText(tags[2].text, s.tokens[pos + 2].at, ethertype);
    case Broadcast =>
    case Multicast =>
  }

  /** The words between `ether` and the address. */
  predicate HostWords(tags: seq<TokenTag>, dir: Option<DirTag>) {
    match dir
    case None => tags == [Word("ether"), Word("host")]
    case Some(Src) => tags == [Word("ether"), Word("src")] || tags == [Word("ether"), Word("src"), Word("host")]
    case Some(Dst) => tags == [Word("ether"), Word("dst")] || tags == [Word("ether"), Word("dst"), Word("host")]
  }

  lemma HostPhraseParts(tags: seq<TokenTag>, mac: MacAddr, dir: Option<DirTag>)
    requires EtherPhrase(tags, EtherHost(mac, dir))
    ensures 3 <= |tags| <= 4 && HostWords(tags[..|tags| - 1], dir) && MacWord(tags[|tags| - 1], mac)
  {
  }

  lemma HostWordsRead(s: Input, pos: nat, mac: MacAddr, dir: Option<DirTag>, end: nat)
    requires s.Valid() && pos + 3 <= end < |s.tokens| && MacAt(s, end - 1, dir) == Ok((EtherHost(mac, dir), end))
    requires IsWord(s, pos + 1, if dir.None? then "host" else DirText(dir.value))
    requires end == pos + 3 ==> !IsWord(s, pos + 2, "host")
    requires end > pos + 3 ==> end == pos + 4 && dir.Some? && IsWord(s, pos + 2, "host")
    ensures EtherKindAt(s, pos + 1) == Ok((EtherHost(mac, dir), end))
  {
  }

  lemma EtherHostPhraseReads(s: Input, pos: nat, mac: MacAddr, dir: Option<DirTag>, end: nat)
    requires s.Valid() && pos + 1 < end < |s.tokens| && EtherPhrase(TagsFrom(s, pos, end), EtherHost(mac, dir))
    ensures IsWord(s, pos, "ether") && EtherKindAt(s, pos + 1) == Ok((EtherHost(mac, dir), end))
  {
    var tags := TagsFrom(s, pos, end);
    HostPhraseParts(tags, mac, dir);
    var words := tags[..|tags| - 1];
    assert words[0] == s.tokens[pos].tag && words[1] == s.tokens[pos + 1].tag;
    assert tags[|tags| - 1] == s.tokens[end - 1].tag;
    MacPhraseReads(s, end - 1, mac, dir);
    if end == pos + 4 {
      assert words[2] == s.tokens[pos + 2].tag;
    }
    HostWordsRead(s, pos, mac, dir, end);
  }

  lemma EtherAfterWord(s: Input, pos: nat, kind: EtherKind, end: nat)
    requires s.Valid() && pos + 1 < end < |s.tokens| && IsWord(s, pos, "ether")
    requires EtherKindAt(s, pos + 1) == Ok((kind, end))
    ensures EtherReads(s, pos, EtherPrimitive(kind, Span(s.tokens[pos].at.start, s.tokens[end - 1].at.end)), end)
  {
  }

  lemma BareEtherReads(s: Input, pos: nat, kind: EtherKind)
    requires s.Valid() && pos + 1 < |s.tokens| && EtherPhrase([s.tokens[pos].tag], kind)
    ensures StartsEther(s.tokens[pos].tag)
    ensures EtherReads(s, pos, EtherPrimitive(kind, Span(s.tokens[pos].at.start, s.tokens[pos].at.end)), pos + 1)
  {
  }

  lemma EtherPhraseReads(s: Input, pos: nat, ether: EtherPrimitive, end: nat)
    requires s.Valid() && pos < end < |s.tokens| && EtherPhrase(TagsFrom(s, pos, end), ether.kind)
    requires ether.at == Span(s.tokens[pos].at.start, s.tokens[end - 1].at.end)
    ensures ReadsAs(s, pos, 2, EtherExpr(ether), end)
  {
    if end > pos + 1 {
      EtherKindReads(s, pos, ether.kind, end);
      EtherAfterWord(s, pos, ether.kind, end);
    } else {
      OneTag(s, pos);
      BareEtherReads(s, pos, ether.kind);
    }
    EtherJoins(s, pos, ether, end);
  }

  lemma {:induction false} OrIsRead(s: Input, pos: nat, e: Expr, end: nat)
    requires s.Valid() && pos <= end < |s.tokens| && OrPhrase(s.tokens[pos..end], e, s.ip6)
    requires !IsWord(s, end, "and")
    ensures ReadsAs(s, pos, 0, e, end)
    decreases end - pos, 3
  {
    if AndPhrase(s.tokens[pos..end], e, s.ip6) {
      AndIsRead(s, pos, e, end);
      AndToOr(s, pos, e, end);
    } else {
      var mid := OrBetween(s, pos, e, end);
      OrIsRead(s, pos, e.left, mid);
      AndIsRead(s, mid + 1, e.right, end);
      OrJoins(s, pos, e.left, mid, e.right, end);
    }
  }

  lemma OrSplits(tokens: seq<Token>, e: Expr, ip6: Ipv6Notation) returns (k: nat)
    requires OrPhrase(tokens, e, ip6) && !AndPhrase(tokens, e, ip6)
    ensures e.OrExpr? && e.at == Span(ExprSpan(e.left).start, ExprSpan(e.right).end)
    ensures k < |tokens| && tokens[k].tag == Word("or")
    ensures OrPhrase(tokens[..k], e.left, ip6) && AndPhrase(tokens[k + 1..], e.right, ip6)
  {
    k :| k < |tokens| && tokens[k].tag == Word("or") && OrPhrase(tokens[..k], e.left, ip6) &&
         AndPhrase(tokens[k + 1..], e.right, ip6);
  }

  /** The same sides, by their places among all the tokens. */
  lemma OrSides(s: Input, pos: nat, k: nat, l: Expr, r: Expr, end: nat)
    requires pos <= end < |s.tokens| && k < end - pos && s.tokens[pos..end][k].tag == Word("or")
    requires OrPhrase(s.tokens[pos..end][..k], l, s.ip6) && AndPhrase(s.tokens[pos..end][k + 1..], r, s.ip6)
    ensures IsWord(s, pos + k, "or")
    ensures OrPhrase(s.tokens[pos..pos + k], l, s.ip6) && AndPhrase(s.tokens[pos + k + 1..end], r, s.ip6)
  {
    SlicesAt(s, pos, k, end);
  }

  lemma OrBetween(s: Input, pos: nat, e: Expr, end: nat) returns (mid: nat)
    requires pos <= end < |s.tokens|
    requires OrPhrase(s.tokens[pos..end], e, s.ip6) && !AndPhrase(s.tokens[pos..end], e, s.ip6)
    ensures e.OrExpr? && e.at == Span(ExprSpan(e.left).start, ExprSpan(e.right).end)
    ensures pos <= mid < end && IsWord(s, mid, "or")
    ensures OrPhrase(s.tokens[pos..mid], e.left, s.ip6) && AndPhrase(s.tokens[mid + 1..end], e.right, s.ip6)
  {
    var k := OrSplits(s.tokens[pos..end], e, s.ip6);
    OrSides(s, pos, k, e.left, e.right, end);
    mid := pos + k;
  }

  lemma AndSplits(tokens: seq<Token>, e: Expr, ip6: Ipv6Notation) returns (k: nat)
    requires AndPhrase(tokens, e, ip6) && !UnaryPhrase(tokens, e, ip6)
    ensures e.AndExpr? && e.at == Span(ExprSpan(e.left).start, ExprSpan(e.right).end)
    ensures k < |tokens| && tokens[k].tag == Word("and")
    ensures AndPhrase(tokens[..k], e.left, ip6) && UnaryPhrase(tokens[k + 1..], e.right, ip6)
  {
    k :| k < |tokens| && tokens[k].tag == Word("and") && AndPhrase(tokens[..k], e.left, ip6) &&
         UnaryPhrase(tokens[k + 1..], e.right, ip6);
  }

  /** The same sides, by their places among all the tokens. */
  lemma AndSides(s: Input, pos: nat, k: nat, l: Expr, r: Expr, end: nat)
    requires pos <= end < |s.tokens| && k < end - pos && s.tokens[pos..end][k].tag == Word("and")
    requires AndPhrase(s.tokens[pos..end][..k], l, s.ip6) && UnaryPhrase(s.tokens[pos..end][k + 1..], r, s.ip6)
    ensures IsWord(s, pos + k, "and")
    ensures AndPhrase(s.tokens[pos..pos + k], l, s.ip6) && UnaryPhrase(s.tokens[pos + k + 1..end], r, s.ip6)
  {
    SlicesAt(s, pos, k, end);
  }

  lemma AndBetween(s: Input, pos: nat, e: Expr, end: nat) returns (mid: nat)
    requires pos <= end < |s.tokens|
    requires AndPhrase(s.tokens[pos..end], e, s.ip6) && !UnaryPhrase(s.tokens[pos..end], e, s.ip6)
    ensures e.AndExpr? && e.at == Span(ExprSpan(e.left).start, ExprSpan(e.right).end)
    ensures pos <= mid < end && IsWord(s, mid, "and")
    ensures AndPhrase(s.tokens[pos..mid], e.left, s.ip6) && UnaryPhrase(s.tokens[mid + 1..end], e.right, s.ip6)
  {
    var k := AndSplits(s.tokens[pos..end], e, s.ip6);
    AndSides(s, pos, k, e.left, e.right, end);
    mid := pos + k;
  }

  lemma {:induction false} AndIsRead(s: Input, pos: nat, e: Expr, end: nat)
    requires s.Valid() && pos <= end < |s.tokens| && AndPhrase(s.tokens[pos..end], e, s.ip6)
    ensures ReadsAs(s, pos, 1, e, end)
    decreases end - pos, 2
  {
    if UnaryPhrase(s.tokens[pos..end], e, s.ip6) {
      UnaryIsRead(s, pos, e, end);
      UnaryToAnd(s, pos, e, end);
    } else {
      var mid := AndBetween(s, pos, e, end);
      AndIsRead(s, pos, e.left, mid);
      UnaryIsRead(s, mid + 1, e.right, end);
      AndJoins(s, pos, e.left, mid, e.right, end);
    }
  }

  lemma {:induction false} UnaryIsRead(s: Input, pos: nat, e: Expr, end: nat)
    requires s.Valid() && pos <= end < |s.tokens| && UnaryPhrase(s.tokens[pos..end], e, s.ip6)
    ensures ReadsAs(s, pos, 2, e, end)
    decreases end - pos, 1
  {
    if PrimaryPhrase(s.tokens[pos..end], e, s.ip6) {
      PrimaryIsRead(s, pos, e, end);
    } else {
      SlicesAt(s, pos, 0, end);
      UnaryIsRead(s, pos + 1, e.inner, end);
      NotJoins(s, pos, e.inner, end);
    }
  }

  lemma {:induction false} PrimaryIsRead(s: Input, pos: nat, e: Expr, end: nat)
    requires s.Valid() && pos <= end < |s.tokens| && PrimaryPhrase(s.tokens[pos..end], e, s.ip6)
    ensures ReadsAs(s, pos, 2, e, end)
    decreases end - pos, 0
  {
    if LeafPhrase(s, pos, e, end) {
      LeafIsRead(s, pos, e, end);
    } else {
      InParentheses(s, pos, e, end);
      OrIsRead(s, pos + 1, e, end - 1);
      Parenthesised(s, pos, e, end);
    }
  }

  /** The tokens from `pos` to `end` spell this leaf. */
  ghost predicate LeafPhrase(s: Input, pos: nat, e: Expr, end: nat)
    requires pos <= end <= |s.tokens|
  {
    && pos < end
    && (e.PrimExpr? || e.EtherExpr?)
    && ExprSpan(e) == Span(s.tokens[pos].at.start, s.tokens[end - 1].at.end)
    && (e.PrimExpr? ==> PrimitivePhrase(TagsFrom(s, pos, end), e.prim, s.ip6))
    && (e.EtherExpr? ==> EtherPhrase(TagsFrom(s, pos, end), e.ether.kind))
  }

  lemma LeafIsRead(s: Input, pos: nat, e: Expr, end: nat)
    requires s.Valid() && pos <= end < |s.tokens| && LeafPhrase(s, pos, e, end)
    ensures ReadsAs(s, pos, 2, e, end)
  {
    match e
    case PrimExpr(p) => PrimitivePhraseReads(s, pos, p, end);
    case EtherExpr(ether) => EtherPhraseReads(s, pos, ether, end);
  }

  lemma InParentheses(s: Input, pos: nat, e: Expr, end: nat)
    requires pos <= end < |s.tokens| && PrimaryPhrase(s.tokens[pos..end], e, s.ip6) && !LeafPhrase(s, pos, e, end)
    ensures pos + 1 < end && s.tokens[pos].tag == LParen && s.tokens[end - 1].tag == RParen
    ensures OrPhrase(s.tokens[pos + 1..end - 1], e, s.ip6)
  {
    var tokens := s.tokens[pos..end];
    TagsOfSlice(s, pos, end);
    ExtentIs(s, pos, end);
    assert tokens[0] == s.tokens[pos] && tokens[|tokens| - 1] == s.tokens[end - 1];
    if |tokens| >= 2 {
      assert tokens[1..|tokens| - 1] == s.tokens[pos + 1..end - 1];
    }
  }

  // ----- the parser and the grammar -----

  /** `Eof` stands last and only there, as the lexer leaves it. */
  predicate Closed(s: Input) {
    s.Valid() && forall i :: 0 <= i < |s.tokens| - 1 ==> s.tokens[i].tag != Eof
  }

  /** The tokens in front of `Eof` spell this expression, each of its parts where it says. */
  ghost predicate SpellsExpr(s: Input, e: Expr)
    requires s.Valid()
  {
    OrPhrase(s.tokens[..|s.tokens| - 1], e, s.ip6)
  }

  lemma ParsedIsSpelled(s: Input)
    requires Closed(s) && ParsedAll(s).Ok?
    ensures SpellsExpr(s, ParsedAll(s).value)
  {
    OrIsSpelled(s, 0);
    assert s.tokens[0..|s.tokens| - 1] == s.tokens[..|s.tokens| - 1];
  }

  lemma SpelledIsParsed(s: Input, e: Expr)
    requires Closed(s) && SpellsExpr(s, e)
    ensures ParsedAll(s) == Ok(e)
  {
    var n := |s.tokens| - 1;
    assert s.tokens[0..n] == s.tokens[..n];
    OrIsRead(s, 0, e, n);
    OrReads(s, 0, e, n);
    assert OrTail(s, e, n) == Ok((e, n));
    assert OrAt(s, 0) == Ok((e, n)) && n > 0;
  }

  /** The parser reads exactly the sentences of the grammar: it yields an expression if and only if the tokens spell
      it. */
  lemma ParsesExactly(s: Input, e: Expr)
    requires Closed(s)
    ensures ParsedAll(s) == Ok(e) <==> SpellsExpr(s, e)
  {
    if ParsedAll(s) == Ok(e) {
      ParsedIsSpelled(s);
    }
    if SpellsExpr(s, e) {
      SpelledIsParsed(s, e);
    }
  }
}
