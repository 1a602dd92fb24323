/** What a parse error says: the token it points at, and what is the matter with that token. */
module ParseErrors {
  import opened Words
  import opened Errors
  import opened Ast
  import opened Lexer
  import opened Literals
  import opened Parser
  import opened Notation
  import opened RoundTrip

  /** A token as it is quoted. */
  predicate Quotes(text: string, tag: TokenTag) {
    match tag
    case Word(w) => text == w
    case Dash => text == "-"
    case LParen => text == "("
    case RParen => text == ")"
    case Eof => false
  }

  predicate NoNumber(text: string) {
    forall v: nat :: v <= 0xffff ==> !Numeral(text, 10, v)
  }

  ghost predicate NoAddress(text: string, ip6: Ipv6Notation) {
    forall addr :: !AddressText(text, addr, ip6)
  }

  ghost predicate NoNetwork(text: string, ip6: Ipv6Notation) {
    forall addr, prefix :: !NetworkText(text, addr, prefix, ip6)
  }

  /** Token `i` is a word behind `host` that is no address, or behind `net` that is no network. */
  ghost predicate BadAddress(s: Input, i: nat, text: string) {
    0 < i < |s.tokens| && s.tokens[i].tag == Word(text) &&
    (|| (s.tokens[i - 1].tag == Word("host") && NoAddress(text, s.ip6))
     || (s.tokens[i - 1].tag == Word("net") && NoNetwork(text, s.ip6)))
  }

  /** The range ends at token `i`, two behind its lower port, and starts where its primitive does. */
  ghost predicate BadRange(s: Input, i: nat, lo: nat, hi: nat, at: Span) {
    && 2 < i < |s.tokens|
    && s.tokens[i - 3].tag == Word("portrange") && s.tokens[i - 1].tag == Dash
    && s.tokens[i - 2].tag.Word? && Numeral(s.tokens[i - 2].tag.text, 10, lo)
    && s.tokens[i].tag.Word? && Numeral(s.tokens[i].tag.text, 10, hi)
    && lo > hi
    && at.end == s.tokens[i].at.end
    && exists k :: 0 <= k < i - 2 && at.start == s.tokens[k].at.start
  }

  /** Token `i` is wrong in the way this says. */
  ghost predicate Faults(s: Input, i: nat, tag: ErrorTag)
    requires i < |s.tokens|
  {
    var t := s.tokens[i];
    match tag
    case UnexpectedToken(_, found) => Quotes(found, t.tag)
    case UnexpectedEof(_) => t.tag == Eof
    case UnknownKeyword(word) => t.tag == Word(word) && (word == "rarp" || word == "sctp")
    case InvalidIPv4Literal(text) => ':' !in text && BadAddress(s, i, text)
    case InvalidIPv6Literal(text) => ':' in text && BadAddress(s, i, text)
    case InvalidMacLiteral(text) => t.tag == Word(text) && forall mac :: !ColonHex(text, mac)
    case InvalidEtherType(text) => t.tag == Word(text) && forall v: u16 :: !EthertypeText(text, v)
    case InvalidPortNumber(text) => t.tag == Word(text) && NoNumber(text)
    case UnbalancedParens => t.tag == RParen || OpenBefore(s, i)
    case EmptyExpression => i == 0 && t.tag == Eof
    case _ => false
  }

  predicate OpenBefore(s: Input, i: nat)
    requires i < |s.tokens|
  {
    exists k :: 0 <= k < i && s.tokens[k].tag == LParen
  }

  /** The error is about token `i`: a reversed range ends there, or else the error stands at the token, quotes it, and
      the token is wrong in the way it says. */
  ghost predicate Blames(s: Input, i: nat, error: CompileError)
    requires i < |s.tokens|
  {
    if error.tag.InvalidPortRange? then BadRange(s, i, error.tag.lo, error.tag.hi, error.at)
    else error.at == s.tokens[i].at && Faults(s, i, error.tag)
  }

  ghost predicate Justified(s: Input, error: CompileError) {
    exists i: nat :: i < |s.tokens| && Blames(s, i, error)
  }

  ghost predicate Sane<T>(s: Input, r: Parsed<T>) {
    r.Err? ==> Justified(s, r.error)
  }

  // ----- the leaves -----

  lemma TokenBlamed(s: Input, pos: nat, expected: string)
    requires pos < |s.tokens|
    ensures Justified(s, Unexpected(s.tokens[pos], expected))
  {
    assert Blames(s, pos, Unexpected(s.tokens[pos], expected));
  }

  lemma AddressBlamed(s: Input, pos: nat, allowPrefix: bool)
    requires 0 < pos < |s.tokens| && s.tokens[pos].tag.Word?
    requires s.tokens[pos - 1].tag == Word(if allowPrefix then "net" else "host")
    ensures var r := AddrLiteral(s.tokens[pos].tag.text, s.tokens[pos].at, allowPrefix, s.ip6);
            r.Err? ==> Justified(s, r.error)
  {
    var text, at := s.tokens[pos].tag.text, s.tokens[pos].at;
    var r := AddrLiteral(text, at, allowPrefix, s.ip6);
    if r.Err? {
      InvalidNetwork(text, at, allowPrefix, s.ip6);
      forall addr, prefix: Option<u8>
        ensures !(NetworkText(text, addr, prefix, s.ip6) && (prefix.Some? ==> allowPrefix))
      {
        ReadsNetwork(text, at, allowPrefix, s.ip6, addr, prefix);
      }
      if !allowPrefix {
        forall addr ensures !AddressText(text, addr, s.ip6) {
          assert !NetworkText(text, addr, None, s.ip6);
        }
      }
      assert BadAddress(s, pos, text);
      assert Blames(s, pos, r.error);
    }
  }

  lemma HostSane(s: Input, pos: nat)
    requires s.Valid() && 0 < pos < |s.tokens| && s.tokens[pos - 1].tag == Word("host")
    ensures Sane(s, HostAt(s, pos))
  {
    TokenBlamed(s, pos, "an address");
    if s.tokens[pos].tag.Word? {
      AddressBlamed(s, pos, false);
    }
  }

  lemma NetSane(s: Input, pos: nat)
    requires s.Valid() && 0 < pos < |s.tokens| && s.tokens[pos - 1].tag == Word("net")
    ensures Sane(s, NetAt(s, pos))
  {
    TokenBlamed(s, pos, "a network address");
    if s.tokens[pos].tag.Word? {
      AddressBlamed(s, pos, true);
    }
  }

  lemma PortSane(s: Input, pos: nat)
    requires s.Valid() && pos < |s.tokens|
    ensures Sane(s, PortAt(s, pos))
    ensures var r := PortAt(s, pos);
            r.Ok? ==> s.tokens[pos].tag.Word? && Numeral(s.tokens[pos].tag.text, 10, r.value.0 as nat)
  {
    TokenBlamed(s, pos, "a port number");
    if s.tokens[pos].tag.Word? {
      var text, at := s.tokens[pos].tag.text, s.tokens[pos].at;
      forall v: nat | v <= 0xffff ensures ParsePort(text, at) == Ok(v) <==> Numeral(text, 10, v) {
        ReadsPort(text, at, v);
      }
      if ParsePort(text, at).Err? {
        ReadsPort(text, at, 0);
        assert Blames(s, pos, ParsePort(text, at).error);
      }
    }
  }

  lemma PortRangeSane(s: Input, from: nat, pos: nat)
    requires s.Valid() && from < pos < |s.tokens| && s.tokens[pos - 1].tag == Word("portrange")
    ensures Sane(s, PortRangeAt(s, s.tokens[from].at.start, pos))
  {
    PortSane(s, pos);
    if PortAt(s, pos).Ok? {
      TokenBlamed(s, pos + 1, "'-' in a port range");
      if s.tokens[pos + 1].tag.Dash? {
        PortSane(s, pos + 2);
        if PortAt(s, pos + 2).Ok? {
          RangeSane(s, from, pos);
        }
      }
    }
  }

  lemma RangeSane(s: Input, from: nat, pos: nat)
    requires s.Valid() && from < pos && pos + 2 < |s.tokens| && s.tokens[pos - 1].tag == Word("portrange")
    requires PortAt(s, pos).Ok? && s.tokens[pos + 1].tag.Dash? && PortAt(s, pos + 2).Ok?
    ensures Sane(s, PortRangeAt(s, s.tokens[from].at.start, pos))
  {
    var lo, hi := PortAt(s, pos).value.0, PortAt(s, pos + 2).value.0;
    var at := Span(s.tokens[from].at.start, s.tokens[pos + 2].at.end);
    PortSane(s, pos);
    PortSane(s, pos + 2);
    assert PortRangeAt(s, s.tokens[from].at.start, pos) ==
           if lo > hi then Err(CompileError(at, InvalidPortRange(lo, hi))) else Ok((PortRange(lo, hi), pos + 3));
    if lo > hi {
      ReversedRange(s, from, pos, lo, hi);
    }
  }

  lemma ReversedRange(s: Input, from: nat, pos: nat, lo: u16, hi: u16)
    requires from < pos && pos + 2 < |s.tokens| && lo > hi
    requires s.tokens[pos - 1].tag == Word("portrange") && s.tokens[pos + 1].tag == Dash
    requires s.tokens[pos].tag.Word? && Numeral(s.tokens[pos].tag.text, 10, lo)
    requires s.tokens[pos + 2].tag.Word? && Numeral(s.tokens[pos + 2].tag.text, 10, hi)
    ensures Justified(s, CompileError(Span(s.tokens[from].at.start, s.tokens[pos + 2].at.end),
                                      InvalidPortRange(lo, hi)))
  {
    var at := Span(s.tokens[from].at.start, s.tokens[pos + 2].at.end);
    assert BadRange(s, pos + 2, lo, hi, at);
    assert Blames(s, pos + 2, CompileError(at, InvalidPortRange(lo, hi)));
  }

  lemma TypeSane(s: Input, from: nat, pos: nat)
    requires s.Valid() && from <= pos && pos + 1 < |s.tokens| && s.tokens[pos].tag.Word?
    ensures Sane(s, TypeAt(s, s.tokens[from].at.start, s.tokens[pos].tag.text, s.tokens[pos].at, pos + 1))
  {
    var ty := s.tokens[pos].tag.text;
    var r := TypeAt(s, s.tokens[from].at.start, ty, s.tokens[pos].at, pos + 1);
    if ty == "host" {
      HostSane(s, pos + 1);
    } else if ty == "net" {
      NetSane(s, pos + 1);
    } else if ty == "port" {
      PortSane(s, pos + 1);
    } else if ty == "portrange" {
      PortRangeSane(s, from, pos + 1);
    } else {
      assert Blames(s, pos, r.error);
    }
  }

  lemma UnqualifiedSane(s: Input, from: nat, proto: Option<ProtoTag>, dir: Option<DirTag>, pos: nat)
    requires s.Valid() && from <= pos < |s.tokens|
    ensures Sane(s, UnqualifiedAt(s, s.tokens[from].at.start, proto, dir, pos))
  {
    TokenBlamed(s, pos, EXPECT_TYPE);
    if s.tokens[pos].tag.Word? {
      UnqualifiedUnfolds(s, s.tokens[from].at.start, proto, dir, pos);
      TypeSane(s, from, pos);
    }
  }

  lemma PrimitiveSane(s: Input, pos: nat)
    requires s.Valid() && pos < |s.tokens|
    ensures Sane(s, PrimitiveAt(s, pos))
  {
    var p1 := Past(s, pos, ProtoWord(s.tokens[pos].tag).Some?);
    var p2 := Past(s, p1, DirWord(s.tokens[p1].tag).Some?);
    UnqualifiedSane(s, pos, ProtoWord(s.tokens[pos].tag), DirWord(s.tokens[p1].tag), p2);
  }

  lemma MacSane(s: Input, pos: nat, dir: Option<DirTag>)
    requires s.Valid() && pos < |s.tokens|
    ensures Sane(s, MacAt(s, pos, dir))
  {
    TokenBlamed(s, pos, "a MAC address");
    if s.tokens[pos].tag.Word? {
      var text, at := s.tokens[pos].tag.text, s.tokens[pos].at;
      forall mac: MacAddr ensures MacLiteral(text, at) == Ok(mac) <==> ColonHex(text, mac) {
        ReadsColonHex(text, at, mac);
      }
      if MacLiteral(text, at).Err? {
        ReadsColonHex(text, at, [0, 0, 0, 0, 0, 0]);
        assert Blames(s, pos, MacLiteral(text, at).error);
      }
    }
  }

  lemma EthertypeSane(s: Input, pos: nat)
    requires s.Valid() && pos < |s.tokens| && IsWord(s, pos, "proto")
    ensures Sane(s, EtherKindAt(s, pos))
  {
    if pos + 1 < |s.tokens| {
      TokenBlamed(s, pos + 1, "an ethertype name or number");
      if s.tokens[pos + 1].tag.Word? {
        var text, at := s.tokens[pos + 1].tag.text, s.tokens[pos + 1].at;
        forall v: u16 ensures ParseEthertype(text, at) == Ok(v) <==> EthertypeText(text, v) {
          ReadsEthertypeText(text, at, v);
        }
        if ParseEthertype(text, at).Err? {
          ReadsEthertypeText(text, at, 0);
          assert Blames(s, pos + 1, ParseEthertype(text, at).error);
        }
      }
    }
  }

  lemma EtherKindSane(s: Input, pos: nat)
    requires s.Valid() && pos < |s.tokens|
    ensures Sane(s, EtherKindAt(s, pos))
  {
    TokenBlamed(s, pos, EXPECT_ETHER);
    if s.tokens[pos].tag.Word? {
      var p, w := pos + 1, s.tokens[pos].tag.text;
      if w == "host" {
        MacSane(s, p, None);
      } else if w == "src" || w == "dst" {
        MacSane(s, Past(s, p, IsWord(s, p, "host")), Some(if w == "src" then Src else Dst));
      } else if w == "proto" {
        EthertypeSane(s, pos);
      }
    }
  }

  lemma EtherSane(s: Input, pos: nat)
    requires s.Valid() && pos < |s.tokens| && s.tokens[pos].tag.Word?
    ensures Sane(s, EtherAt(s, pos))
  {
    if pos + 1 < |s.tokens| {
      EtherKindSane(s, pos + 1);
    }
  }

  // ----- the connectives -----

  lemma {:induction false} OrSane(s: Input, pos: nat)
    requires s.Valid() && pos < |s.tokens|
    ensures Sane(s, OrAt(s, pos))
    decreases |s.tokens| - pos, 5
  {
    AndSane(s, pos);
    if AndAt(s, pos).Ok? {
      OrTailSane(s, AndAt(s, pos).value.0, AndAt(s, pos).value.1);
    }
  }

  lemma {:induction false} OrTailSane(s: Input, lhs: Expr, pos: nat)
    requires s.Valid() && pos < |s.tokens|
    ensures Sane(s, OrTail(s, lhs, pos))
    decreases |s.tokens| - pos, 4
  {
    if IsWord(s, pos, "or") {
      AndSane(s, pos + 1);
      var r := AndAt(s, pos + 1);
      if r.Ok? {
        OrTailSane(s, OrExpr(lhs, r.value.0, Span(ExprSpan(lhs).start, ExprSpan(r.value.0).end)), r.value.1);
      }
    }
  }

  lemma {:induction false} AndSane(s: Input, pos: nat)
    requires s.Valid() && pos < |s.tokens|
    ensures Sane(s, AndAt(s, pos))
    decreases |s.tokens| - pos, 3
  {
    UnarySane(s, pos);
    if UnaryAt(s, pos).Ok? {
      AndTailSane(s, UnaryAt(s, pos).value.0, UnaryAt(s, pos).value.1);
    }
  }

  lemma {:induction false} AndTailSane(s: Input, lhs: Expr, pos: nat)
    requires s.Valid() && pos < |s.tokens|
    ensures Sane(s, AndTail(s, lhs, pos))
    decreases |s.tokens| - pos, 2
  {
    if IsWord(s, pos, "and") {
      UnarySane(s, pos + 1);
      var r := UnaryAt(s, pos + 1);
      if r.Ok? {
        AndTailSane(s, AndExpr(lhs, r.value.0, Span(ExprSpan(lhs).start, ExprSpan(r.value.0).end)), r.value.1);
      }
    }
  }

  lemma {:induction false} UnarySane(s: Input, pos: nat)
    requires s.Valid() && pos < |s.tokens|
    ensures Sane(s, UnaryAt(s, pos))
    decreases |s.tokens| - pos, 1
  {
    if IsWord(s, pos, "not") {
      UnarySane(s, pos + 1);
    } else {
      PrimarySane(s, pos);
    }
  }

  lemma {:induction false} PrimarySane(s: Input, pos: nat)
    requires s.Valid() && pos < |s.tokens|
    ensures Sane(s, PrimaryAt(s, pos))
    decreases |s.tokens| - pos, 0
  {
    TokenBlamed(s, pos, "an expression");
    match s.tokens[pos].tag
    case LParen =>
      OrSane(s, pos + 1);
      GroupSane(s, pos);
    case RParen =>
      assert Blames(s, pos, CompileError(s.tokens[pos].at, UnbalancedParens));
    case Word(w) =>
      if StartsEther(s.tokens[pos].tag) {
        EtherSane(s, pos);
      } else {
        PrimitiveSane(s, pos);
      }
    case _ =>
  }

  lemma GroupSane(s: Input, pos: nat)
    requires s.Valid() && pos + 1 < |s.tokens| && s.tokens[pos].tag.LParen? && Sane(s, OrAt(s, pos + 1))
    ensures Sane(s, PrimaryAt(s, pos))
  {
    var r := OrAt(s, pos + 1);
    if r.Ok? && !s.tokens[r.value.1].tag.RParen? {
      assert Blames(s, r.value.1, CompileError(s.tokens[r.value.1].at, UnbalancedParens));
    }
  }

  /** Every parse error is about a token that is wrong as the error says. */
  lemma ParseErrorsJustified(s: Input)
    requires s.Valid() && ParsedAll(s).Err?
    ensures Justified(s, ParsedAll(s).error)
  {
    OrSane(s, 0);
    if s.tokens[0].tag.Eof? {
      assert Blames(s, 0, ParsedAll(s).error);
    } else if OrAt(s, 0).Ok? {
      assert Blames(s, OrAt(s, 0).value.1, ParsedAll(s).error);
    }
  }
}
