/** What every parsed expression satisfies: its literals are in range, its spans nest in the order of the
    text, and it has no more leaves than tokens. And what every parse error does: it points into the text, at or
    behind the token where reading began. */
module ParserProofs {
  import opened Errors
  import opened Ast
  import opened Desugar
  import opened Literals
  import opened Lexer
  import opened Parser
  import opened Printer

  /** Every node's span contains its children's, and these do not overlap and stand in order. */
  predicate Nested(e: Expr) {
    match e
    case PrimExpr(p) => p.at.start < p.at.end
    case EtherExpr(ether) => ether.at.start < ether.at.end
    case NotExpr(inner, at) => Nested(inner) && at.start < ExprSpan(inner).start && ExprSpan(inner).end == at.end
    case AndExpr(l, r, at) => Nested(l) && Nested(r) && SidesNested(ExprSpan(l), ExprSpan(r), at)
    case OrExpr(l, r, at) => Nested(l) && Nested(r) && SidesNested(ExprSpan(l), ExprSpan(r), at)
  }

  predicate SidesNested(left: Span, right: Span, at: Span) {
    at.start == left.start < left.end < right.start < right.end == at.end
  }

  /** How many primitives an expression is written with. */
  function Primitives(e: Expr): nat {
    match e
    case PrimExpr(_) => 1
    case EtherExpr(_) => 1
    case NotExpr(inner, _) => Primitives(inner)
    case AndExpr(l, r, _) => Primitives(l) + Primitives(r)
    case OrExpr(l, r, _) => Primitives(l) + Primitives(r)
  }

  /** Tokens as the lexer yields them. */
  ghost predicate Ordered(s: Input)
    requires s.Valid()
  {
    InOrder(s.tokens, 0, s.tokens[|s.tokens| - 1].at.end)
  }

  /** What holds of an expression read from the tokens from `pos` up to `end`. */
  ghost predicate Sound(s: Input, pos: nat, e: Expr, end: nat)
    requires pos < end < |s.tokens|
  {
    && Writable(e)
    && Nested(e)
    && Primitives(e) <= end - pos
    && s.tokens[pos].at.start <= ExprSpan(e).start
    && ExprSpan(e).start < ExprSpan(e).end <= s.tokens[end - 1].at.end
  }

  /** Where an error met in reading from `pos` on may point. */
  ghost predicate ErrorInside(s: Input, pos: nat, error: CompileError)
    requires s.Valid() && pos < |s.tokens|
  {
    s.tokens[pos].at.start <= error.at.start <= error.at.end <= s.tokens[|s.tokens| - 1].at.end
  }

  ghost predicate SoundIfRead(s: Input, pos: nat, r: Parsed<Expr>)
    requires s.Valid() && pos < |s.tokens|
  {
    match r
    case Ok((e, end)) => pos < end < |s.tokens| && Sound(s, pos, e, end)
    case Err(error) => ErrorInside(s, pos, error)
  }

  // ----- leaves -----

  lemma SpansGrow(s: Input, i: nat, j: nat)
    requires s.Valid() && Ordered(s) && i <= j < |s.tokens| - 1
    ensures s.tokens[i].at.start < s.tokens[i].at.end <= s.tokens[j].at.end
    ensures i < j ==> s.tokens[i].at.end <= s.tokens[j].at.start
  {
    assert s.tokens[j].at.start < s.tokens[j].at.end;
  }

  lemma TokenInside(s: Input, i: nat, j: nat)
    requires s.Valid() && Ordered(s) && i <= j < |s.tokens|
    ensures s.tokens[i].at.start <= s.tokens[j].at.start <= s.tokens[j].at.end <= s.tokens[|s.tokens| - 1].at.end
  {
    if j == |s.tokens| - 1 {
      assert s.tokens[j] == Token(Eof, Span(s.tokens[j].at.end, s.tokens[j].at.end));
    }
    if i < j {
      assert s.tokens[i].at.end <= s.tokens[j].at.start;
      assert s.tokens[i].at.start < s.tokens[i].at.end;
    }
  }

  /** What points behind a later token points behind this one. */
  lemma LaterError(s: Input, i: nat, j: nat, error: CompileError)
    requires s.Valid() && Ordered(s) && i <= j < |s.tokens| && ErrorInside(s, j, error)
    ensures ErrorInside(s, i, error)
  {
    TokenInside(s, i, j);
  }

  lemma AddressError(text: string, at: Span, allowPrefix: bool, ip6: Ipv6Notation)
    ensures var r := AddrLiteral(text, at, allowPrefix, ip6); r.Err? ==> r.error.at == at
  {
  }

  /** A word, or else the error, of a token not before this one. */
  lemma WordError(s: Input, from: nat, pos: nat, expected: string)
    requires s.Valid() && Ordered(s) && from <= pos < |s.tokens|
    ensures var r := WordAt(s, pos, expected);
            if r.Ok? then forall tag :: ErrorInside(s, from, CompileError(r.value.0.1, tag))
            else ErrorInside(s, from, r.error)
  {
    TokenInside(s, from, pos);
  }

  lemma HostError(s: Input, from: nat, pos: nat)
    requires s.Valid() && Ordered(s) && from <= pos < |s.tokens|
    ensures var r := HostAt(s, pos); r.Err? ==> ErrorInside(s, from, r.error)
  {
    var w := WordAt(s, pos, "an address");
    WordError(s, from, pos, "an address");
    if w.Ok? {
      AddressError(w.value.0.0, w.value.0.1, false, s.ip6);
    }
  }

  lemma NetError(s: Input, from: nat, pos: nat)
    requires s.Valid() && Ordered(s) && from <= pos < |s.tokens|
    ensures var r := NetAt(s, pos); r.Err? ==> ErrorInside(s, from, r.error)
  {
    var w := WordAt(s, pos, "a network address");
    WordError(s, from, pos, "a network address");
    if w.Ok? {
      AddressError(w.value.0.0, w.value.0.1, true, s.ip6);
    }
  }

  lemma PortError(s: Input, from: nat, pos: nat)
    requires s.Valid() && Ordered(s) && from <= pos < |s.tokens|
    ensures var r := PortAt(s, pos); r.Err? ==> ErrorInside(s, from, r.error)
  {
    WordError(s, from, pos, "a port number");
  }

  lemma PortRangeError(s: Input, from: nat, pos: nat)
    requires s.Valid() && Ordered(s) && from <= pos < |s.tokens|
    ensures var r := PortRangeAt(s, s.tokens[from].at.start, pos); r.Err? ==> ErrorInside(s, from, r.error)
  {
    PortError(s, from, pos);
    if PortAt(s, pos).Ok? {
      TokenInside(s, from, pos + 1);
      if DashAt(s, pos + 1).Ok? {
        PortError(s, from, pos + 2);
        TokenInside(s, from, pos + 2);
      }
    }
  }

  lemma TypeError(s: Input, from: nat, pos: nat)
    requires s.Valid() && Ordered(s) && from <= pos && pos + 1 < |s.tokens| && s.tokens[pos].tag.Word?
    ensures var r := TypeAt(s, s.tokens[from].at.start, s.tokens[pos].tag.text, s.tokens[pos].at, pos + 1);
            r.Err? ==> ErrorInside(s, from, r.error)
  {
    var ty := s.tokens[pos].tag.text;
    if ty == "host" {
      HostError(s, from, pos + 1);
    } else if ty == "net" {
      NetError(s, from, pos + 1);
    } else if ty == "port" {
      PortError(s, from, pos + 1);
    } else if ty == "portrange" {
      PortRangeError(s, from, pos + 1);
    } else {
      TokenInside(s, from, pos);
    }
  }

  lemma UnqualifiedError(s: Input, from: nat, proto: Option<ProtoTag>, dir: Option<DirTag>, pos: nat)
    requires s.Valid() && Ordered(s) && from <= pos < |s.tokens|
    ensures var r := UnqualifiedAt(s, s.tokens[from].at.start, proto, dir, pos);
            r.Err? ==> ErrorInside(s, from, r.error)
  {
    TokenInside(s, from, pos);
    if s.tokens[pos].tag.Word? {
      TypeError(s, from, pos);
    }
  }

  lemma PrimitiveError(s: Input, pos: nat)
    requires s.Valid() && Ordered(s) && pos < |s.tokens|
    ensures var r := PrimitiveAt(s, pos); r.Err? ==> ErrorInside(s, pos, r.error)
  {
    var p1 := Past(s, pos, ProtoWord(s.tokens[pos].tag).Some?);
    var p2 := Past(s, p1, DirWord(s.tokens[p1].tag).Some?);
    UnqualifiedError(s, pos, ProtoWord(s.tokens[pos].tag), DirWord(s.tokens[p1].tag), p2);
  }

  lemma MacError(s: Input, from: nat, pos: nat, dir: Option<DirTag>)
    requires s.Valid() && Ordered(s) && from <= pos < |s.tokens|
    ensures var r := MacAt(s, pos, dir); r.Err? ==> ErrorInside(s, from, r.error)
  {
    WordError(s, from, pos, "a MAC address");
  }

  lemma EtherKindError(s: Input, from: nat, pos: nat)
    requires s.Valid() && Ordered(s) && from <= pos < |s.tokens|
    ensures var r := EtherKindAt(s, pos); r.Err? ==> ErrorInside(s, from, r.error)
  {
    WordError(s, from, pos, EXPECT_ETHER);
    if s.tokens[pos].tag.Word? {
      var p, w := pos + 1, s.tokens[pos].tag.text;
      if w == "host" {
        MacError(s, from, p, None);
      } else if w == "src" || w == "dst" {
        MacError(s, from, Past(s, p, IsWord(s, p, "host")), Some(if w == "src" then Src else Dst));
      } else if w == "proto" {
        WordError(s, from, p, "an ethertype name or number");
      }
    }
  }

  lemma EtherError(s: Input, pos: nat)
    requires s.Valid() && Ordered(s) && pos < |s.tokens| && s.tokens[pos].tag.Word?
    ensures var r := EtherAt(s, pos); r.Err? ==> ErrorInside(s, pos, r.error)
  {
    EtherKindError(s, pos, pos + 1);
  }

  lemma AddressInRange(text: string, at: Span, allowPrefix: bool, ip6: Ipv6Notation)
    ensures var r := AddrLiteral(text, at, allowPrefix, ip6); r.Ok? ==> PrefixInRange(Net(r.value.0, r.value.1))
  {
  }

  lemma TypeInRange(s: Input, start: nat, ty: string, tyAt: Span, pos: nat)
    requires s.Valid() && pos < |s.tokens|
    ensures var r := TypeAt(s, start, ty, tyAt, pos);
            r.Ok? ==> PrefixInRange(r.value.0) && (r.value.0.PortRange? ==> r.value.0.lo <= r.value.0.hi)
  {
    if ty == "net" && s.tokens[pos].tag.Word? {
      AddressInRange(s.tokens[pos].tag.text, s.tokens[pos].at, true, s.ip6);
    }
  }

  lemma UnqualifiedSound(s: Input, from: nat, proto: Option<ProtoTag>, dir: Option<DirTag>, pos: nat)
    requires s.Valid() && Ordered(s) && from <= pos < |s.tokens|
    ensures var r := UnqualifiedAt(s, s.tokens[from].at.start, proto, dir, pos);
            r.Ok? ==> Sound(s, from, PrimExpr(r.value.0), r.value.1)
  {
    var start := s.tokens[from].at.start;
    if s.tokens[pos].tag.Word? {
      var w, at := s.tokens[pos].tag.text, s.tokens[pos].at;
      TypeInRange(s, start, w, at, pos + 1);
      QualifiedSound(s, from, proto, dir, TypeAt(s, start, w, at, pos + 1));
    }
  }

  lemma QualifiedSound(s: Input, from: nat, proto: Option<ProtoTag>, dir: Option<DirTag>, ty: Parsed<PrimType>)
    requires s.Valid() && Ordered(s)
    requires ty.Ok? ==> from < ty.value.1 < |s.tokens|
    requires ty.Ok? ==> PrefixInRange(ty.value.0) && (ty.value.0.PortRange? ==> ty.value.0.lo <= ty.value.0.hi)
    ensures ty.Ok? ==> var r := Qualified(s, s.tokens[from].at.start, proto, dir, ty);
                       Sound(s, from, PrimExpr(r.value.0), r.value.1)
  {
    if ty.Ok? {
      SpansGrow(s, from, ty.value.1 - 1);
    }
  }

  lemma PrimitiveSound(s: Input, pos: nat)
    requires s.Valid() && Ordered(s) && pos < |s.tokens|
    ensures var r := PrimitiveAt(s, pos); r.Ok? ==> Sound(s, pos, PrimExpr(r.value.0), r.value.1)
  {
    var p1 := Past(s, pos, ProtoWord(s.tokens[pos].tag).Some?);
    var p2 := Past(s, p1, DirWord(s.tokens[p1].tag).Some?);
    UnqualifiedSound(s, pos, ProtoWord(s.tokens[pos].tag), DirWord(s.tokens[p1].tag), p2);
  }

  lemma EtherSound(s: Input, pos: nat)
    requires s.Valid() && Ordered(s) && pos < |s.tokens| && s.tokens[pos].tag.Word?
    ensures var r := EtherAt(s, pos); r.Ok? ==> Sound(s, pos, EtherExpr(r.value.0), r.value.1)
  {
    var r := EtherAt(s, pos);
    if r.Ok? {
      SpansGrow(s, pos, r.value.1 - 1);
    }
  }

  // ----- expressions -----

  lemma {:induction false} OrSound(s: Input, pos: nat)
    requires s.Valid() && Ordered(s) && pos < |s.tokens|
    ensures SoundIfRead(s, pos, OrAt(s, pos))
    decreases |s.tokens| - pos, 5
  {
    AndSound(s, pos);
    var r := AndAt(s, pos);
    if r.Ok? {
      OrTailSound(s, pos, r.value.0, r.value.1);
    }
  }

  lemma {:induction false} OrTailSound(s: Input, from: nat, lhs: Expr, pos: nat)
    requires s.Valid() && Ordered(s) && from < pos < |s.tokens| && Sound(s, from, lhs, pos)
    ensures SoundIfRead(s, from, OrTail(s, lhs, pos))
    decreases |s.tokens| - pos, 4
  {
    if IsWord(s, pos, "or") {
      AndSound(s, pos + 1);
      var r := AndAt(s, pos + 1);
      if r.Ok? {
        var (rhs, p) := r.value;
        SidesSound(s, from, lhs, pos, rhs, p);
        OrTailSound(s, from, OrExpr(lhs, rhs, Span(ExprSpan(lhs).start, ExprSpan(rhs).end)), p);
      } else {
        LaterError(s, from, pos + 1, r.error);
      }
    }
  }

  lemma {:induction false} AndSound(s: Input, pos: nat)
    requires s.Valid() && Ordered(s) && pos < |s.tokens|
    ensures SoundIfRead(s, pos, AndAt(s, pos))
    decreases |s.tokens| - pos, 3
  {
    UnarySound(s, pos);
    var r := UnaryAt(s, pos);
    if r.Ok? {
      AndTailSound(s, pos, r.value.0, r.value.1);
    }
  }

  lemma {:induction false} AndTailSound(s: Input, from: nat, lhs: Expr, pos: nat)
    requires s.Valid() && Ordered(s) && from < pos < |s.tokens| && Sound(s, from, lhs, pos)
    ensures SoundIfRead(s, from, AndTail(s, lhs, pos))
    decreases |s.tokens| - pos, 2
  {
    if IsWord(s, pos, "and") {
      UnarySound(s, pos + 1);
      var r := UnaryAt(s, pos + 1);
      if r.Ok? {
        var (rhs, p) := r.value;
        SidesSound(s, from, lhs, pos, rhs, p);
        AndTailSound(s, from, AndExpr(lhs, rhs, Span(ExprSpan(lhs).start, ExprSpan(rhs).end)), p);
      } else {
        LaterError(s, from, pos + 1, r.error);
      }
    }
  }

  /** Two expressions with an operator between them. */
  lemma SidesSound(s: Input, from: nat, lhs: Expr, pos: nat, rhs: Expr, end: nat)
    requires s.Valid() && Ordered(s) && from < pos && pos + 1 < end < |s.tokens|
    requires Sound(s, from, lhs, pos) && Sound(s, pos + 1, rhs, end)
    ensures var at := Span(ExprSpan(lhs).start, ExprSpan(rhs).end);
            Sound(s, from, OrExpr(lhs, rhs, at), end) && Sound(s, from, AndExpr(lhs, rhs, at), end)
  {
    SpansGrow(s, pos - 1, pos);
    SpansGrow(s, pos, pos + 1);
  }

  lemma {:induction false} UnarySound(s: Input, pos: nat)
    requires s.Valid() && Ordered(s) && pos < |s.tokens|
    ensures SoundIfRead(s, pos, UnaryAt(s, pos))
    decreases |s.tokens| - pos, 1
  {
    if IsWord(s, pos, "not") {
      UnarySound(s, pos + 1);
      var r := UnaryAt(s, pos + 1);
      if r.Ok? {
        NotSound(s, pos, r.value.0, r.value.1);
      } else {
        LaterError(s, pos, pos + 1, r.error);
      }
    } else {
      PrimarySound(s, pos);
    }
  }

  lemma NotSound(s: Input, pos: nat, e: Expr, end: nat)
    requires s.Valid() && Ordered(s) && pos + 1 < end < |s.tokens| && Sound(s, pos + 1, e, end)
    ensures Sound(s, pos, NotExpr(e, Span(s.tokens[pos].at.start, ExprSpan(e).end)), end)
  {
    SpansGrow(s, pos, pos + 1);
  }

  lemma {:induction false} PrimarySound(s: Input, pos: nat)
    requires s.Valid() && Ordered(s) && pos < |s.tokens|
    ensures SoundIfRead(s, pos, PrimaryAt(s, pos))
    decreases |s.tokens| - pos, 0
  {
    TokenInside(s, pos, pos);
    match s.tokens[pos].tag
    case LParen =>
      OrSound(s, pos + 1);
      GroupSound(s, pos);
    case Word(w) =>
      if w == "ether" || w == "broadcast" || w == "multicast" {
        EtherSound(s, pos);
        EtherError(s, pos);
      } else {
        PrimitiveSound(s, pos);
        PrimitiveError(s, pos);
      }
    case _ =>
  }

  lemma GroupSound(s: Input, pos: nat)
    requires s.Valid() && Ordered(s) && pos + 1 < |s.tokens| && s.tokens[pos].tag.LParen?
    requires SoundIfRead(s, pos + 1, OrAt(s, pos + 1))
    ensures SoundIfRead(s, pos, PrimaryAt(s, pos))
  {
    match OrAt(s, pos + 1)
    case Ok((inner, p)) =>
      TokenInside(s, pos, p);
      if s.tokens[p].tag.RParen? {
        InnerSound(s, pos, inner, p);
      }
    case Err(error) =>
      LaterError(s, pos, pos + 1, error);
  }

  lemma InnerSound(s: Input, pos: nat, e: Expr, end: nat)
    requires s.Valid() && Ordered(s) && pos + 1 < end < |s.tokens| - 1 && Sound(s, pos + 1, e, end)
    ensures Sound(s, pos, e, end + 1)
  {
    SpansGrow(s, pos, pos + 1);
    SpansGrow(s, end - 1, end);
  }

  /** Whatever the parser accepts is in range, nests its spans in the order of the text and within it, and has
      fewer primitives than there are tokens. */
  lemma ParsedIsSound(s: Input)
    requires s.Valid() && Ordered(s) && ParsedAll(s).Ok?
    ensures Writable(ParsedAll(s).value) && Nested(ParsedAll(s).value) && Primitives(ParsedAll(s).value) < |s.tokens|
    ensures ExprSpan(ParsedAll(s).value).end <= s.tokens[|s.tokens| - 1].at.end
  {
    OrSound(s, 0);
    TokenInside(s, 0, OrAt(s, 0).value.1 - 1);
  }

  /** Every parse error points into the text. */
  lemma ParseErrorInside(s: Input)
    requires s.Valid() && Ordered(s) && ParsedAll(s).Err?
    ensures ParsedAll(s).error.at.start <= ParsedAll(s).error.at.end <= s.tokens[|s.tokens| - 1].at.end
  {
    OrSound(s, 0);
    TokenInside(s, 0, 0);
    if OrAt(s, 0).Ok? {
      TokenInside(s, 0, OrAt(s, 0).value.1);
    }
  }

  lemma {:induction false} WritableInRange(e: Expr)
    requires Writable(e)
    ensures InSourceRange(e)
  {
    match e
    case PrimExpr(_) =>
    case EtherExpr(_) =>
    case NotExpr(inner, _) => WritableInRange(inner);
    case AndExpr(l, r, _) => WritableInRange(l); WritableInRange(r);
    case OrExpr(l, r, _) => WritableInRange(l); WritableInRange(r);
  }
}
