/** The laws of logic between compiled programs: which hold on every packet, and exactly when the others do. */
module Laws {
  import opened Words
  import opened Errors
  import opened Ast
  import opened LinkType
  import opened Vm
  import opened Irep
  import opened Decision
  import opened Filters
  import opened Codegen
  import opened Compiler
  import opened CodeSize
  import opened Rejections
  import opened SafeLength
  import opened SourceSize
  import M = Meaning

  /** The expression compiles for this link layer. */
  predicate Compiles(e: ExpandedExpr, link: LinkType, snaplen: u32) {
    InRange(e) && FitsAssembler(e, link) && CompiledExpr(e, link, snaplen).Ok?
  }

  /** How its program ends on a packet. */
  function Ends(e: ExpandedExpr, link: LinkType, snaplen: u32, packet: Bytes): Stop
    requires Compiles(e, link, snaplen)
  {
    Ending(CompiledExpr(e, link, snaplen).value, packet)
  }

  /** The status a caller of its program sees. */
  function StatusOf(e: ExpandedExpr, link: LinkType, snaplen: u32, packet: Bytes): u32
    requires Compiles(e, link, snaplen)
  {
    Status(Ends(e, link, snaplen, packet))
  }

  lemma EndsAsMeant(e: ExpandedExpr, link: LinkType, snaplen: u32, packet: Bytes)
    requires Compiles(e, link, snaplen)
    ensures Ends(e, link, snaplen, packet) == StopFor(M.ExprMeaning(e, link, packet), snaplen)
  {
    SemanticPreservation(e, link, snaplen, packet);
  }

  // ----- not -----

  /** The program of `not e` accepts exactly what the program of `e` does not, if and only if the packet
      settles `e`. Where it does not, both reject. */
  lemma NotIsComplement(e: ExpandedExpr, link: LinkType, snaplen: u32, packet: Bytes)
    requires Compiles(e, link, snaplen) && Compiles(Not(e), link, snaplen) && snaplen != 0
    ensures (StatusOf(Not(e), link, snaplen, packet) != 0 <==> StatusOf(e, link, snaplen, packet) == 0) <==>
            !M.ExprMeaning(e, link, packet).Unknown?
  {
    EndsAsMeant(e, link, snaplen, packet);
    EndsAsMeant(Not(e), link, snaplen, packet);
  }

  /** Every long enough packet settles it. */
  lemma NotIsComplementOnLong(e: ExpandedExpr, link: LinkType, snaplen: u32, packet: Bytes)
    requires Compiles(e, link, snaplen) && Compiles(Not(e), link, snaplen) && snaplen != 0 && LongEnough(link, packet)
    ensures StatusOf(Not(e), link, snaplen, packet) != 0 <==> StatusOf(e, link, snaplen, packet) == 0
  {
    NotIsComplement(e, link, snaplen, packet);
    Settled(e, link, packet);
  }

  /** A double negation compiles to the same instructions, or to the same error. */
  lemma NotNotIsSame(e: ExpandedExpr, link: LinkType, snaplen: u32)
    requires InRange(e) && FitsAssembler(e, link)
    ensures FitsAssembler(Not(Not(e)), link)
    ensures CompiledExpr(Not(Not(e)), link, snaplen) == CompiledExpr(e, link, snaplen)
  {
    SameCode(e, Not(Not(e)), link, snaplen);
  }

  // ----- De Morgan -----

  /** Expressions whose decisions have the same code compile to the same result. */
  lemma SameCode(e1: ExpandedExpr, e2: ExpandedExpr, link: LinkType, snaplen: u32)
    requires InRange(e1) && InRange(e2) && FitsAssembler(e1, link)
    requires var c1, c2 := CondOf(e1, link), CondOf(e2, link);
             if c1.Ok?
             then c2.Ok? && Lower(c1.value, 2, Label(0), Label(1)) == Lower(c2.value, 2, Label(0), Label(1))
             else c2 == c1
    ensures FitsAssembler(e2, link) && CompiledExpr(e2, link, snaplen) == CompiledExpr(e1, link, snaplen)
  {
    assert Generated(e2, link, snaplen) == Generated(e1, link, snaplen);
    assert Generated(e2, link, 0) == Generated(e1, link, 0);
  }

  /** `not (a and b)` and `not a or not b` compile to the same instructions, or to the same error. */
  lemma DeMorgan(a: ExpandedExpr, b: ExpandedExpr, link: LinkType, snaplen: u32)
    requires InRange(a) && InRange(b) && FitsAssembler(Not(And(a, b)), link)
    ensures InRange(Or(Not(a), Not(b))) && FitsAssembler(Or(Not(a), Not(b)), link)
    ensures CompiledExpr(Or(Not(a), Not(b)), link, snaplen) == CompiledExpr(Not(And(a, b)), link, snaplen)
  {
    BinaryErrors(And(a, b), link);
    BinaryErrors(Or(Not(a), Not(b)), link);
    if CondOf(a, link).Ok? && CondOf(b, link).Ok? {
      DeMorganCode(CondOf(a, link).value, CondOf(b, link).value);
    }
    SameCode(Not(And(a, b)), Or(Not(a), Not(b)), link, snaplen);
  }

  lemma DeMorganCode(a: Cond, b: Cond)
    ensures Lower(Either(Negate(a), Negate(b)), 2, Label(0), Label(1)) ==
            Lower(Negate(Both(a, b)), 2, Label(0), Label(1))
    ensures Lower(Both(Negate(a), Negate(b)), 2, Label(0), Label(1)) ==
            Lower(Negate(Either(a, b)), 2, Label(0), Label(1))
  {
    var t, f, mid := Label(0), Label(1), Label(2);
    assert Lower(Negate(a), 3, t, mid) == Lower(a, 3, mid, t) && Lower(Negate(a), 3, mid, f) == Lower(a, 3, f, mid);
    assert Lower(Negate(b), Lower(a, 3, mid, t).next, t, f) == Lower(b, Lower(a, 3, mid, t).next, f, t);
    assert Lower(Negate(b), Lower(a, 3, f, mid).next, t, f) == Lower(b, Lower(a, 3, f, mid).next, f, t);
  }

  /** `not (a or b)` and `not a and not b` likewise, unless `a` and `b` are a source/destination pair. */
  lemma DeMorganOr(a: ExpandedExpr, b: ExpandedExpr, link: LinkType, snaplen: u32)
    requires InRange(a) && InRange(b) && FitsAssembler(Not(Or(a, b)), link) && !IsDirPair(a, b)
    ensures InRange(And(Not(a), Not(b))) && FitsAssembler(And(Not(a), Not(b)), link)
    ensures CompiledExpr(And(Not(a), Not(b)), link, snaplen) == CompiledExpr(Not(Or(a, b)), link, snaplen)
  {
    BinaryErrors(Or(a, b), link);
    BinaryErrors(And(Not(a), Not(b)), link);
    if CondOf(a, link).Ok? && CondOf(b, link).Ok? {
      DeMorganCode(CondOf(a, link).value, CondOf(b, link).value);
    }
    SameCode(Not(Or(a, b)), And(Not(a), Not(b)), link, snaplen);
  }

  /** A pair compiles to fewer instructions than the negations of its leaves do, but for a pair too both sides
      fail with the same error, or both compile and end alike on every packet. */
  lemma DeMorganOrEnds(a: ExpandedExpr, b: ExpandedExpr, link: LinkType, snaplen: u32, packet: Bytes)
    requires InRange(a) && InRange(b) && FitsAssembler(Not(Or(a, b)), link)
    ensures InRange(And(Not(a), Not(b))) && FitsAssembler(And(Not(a), Not(b)), link)
    ensures var joint, apart := CompiledExpr(Not(Or(a, b)), link, snaplen),
                                CompiledExpr(And(Not(a), Not(b)), link, snaplen);
            if joint.Err? then apart == joint
            else apart.Ok? && Ending(joint.value, packet) == Ending(apart.value, packet)
  {
    if IsDirPair(a, b) {
      PairCompiles(a, b, link, snaplen);
    } else {
      DeMorganOr(a, b, link, snaplen);
    }
    assert InRange(Or(a, b)) && InRange(Not(a)) && InRange(Not(b));
    if CompiledExpr(Not(Or(a, b)), link, snaplen).Ok? {
      NeitherEnds(a, b, link, snaplen, packet);
    }
  }

  lemma NeitherEnds(a: ExpandedExpr, b: ExpandedExpr, link: LinkType, snaplen: u32, packet: Bytes)
    requires Compiles(Not(Or(a, b)), link, snaplen) && Compiles(And(Not(a), Not(b)), link, snaplen)
    ensures Ends(Not(Or(a, b)), link, snaplen, packet) == Ends(And(Not(a), Not(b)), link, snaplen, packet)
  {
    EndsAsMeant(Not(Or(a, b)), link, snaplen, packet);
    EndsAsMeant(And(Not(a), Not(b)), link, snaplen, packet);
  }

  /** A pair is small enough to compile, jointly negated or leaf by leaf, unless its first leaf is invalid. */
  lemma PairCompiles(a: ExpandedExpr, b: ExpandedExpr, link: LinkType, snaplen: u32)
    requires InRange(a) && InRange(b) && IsDirPair(a, b)
    ensures InRange(And(Not(a), Not(b)))
    ensures FitsAssembler(Not(Or(a, b)), link) && FitsAssembler(And(Not(a), Not(b)), link)
    ensures var error := LeafError(a, link);
            if error.Some?
            then CompiledExpr(Not(Or(a, b)), link, snaplen) == Err(error.value) ==
                 CompiledExpr(And(Not(a), Not(b)), link, snaplen)
            else CompiledExpr(Not(Or(a, b)), link, snaplen).Ok? &&
                 CompiledExpr(And(Not(a), Not(b)), link, snaplen).Ok?
  {
    PairIsSmall(a, b, link);
    FitsBySize(Not(Or(a, b)), link);
    FitsBySize(And(Not(a), Not(b)), link);
    JointFails(a, b, link);
    ApartFails(a, b, link);
    if LeafError(a, link).None? {
      SmallExpressionsCompile(Not(Or(a, b)), link, snaplen);
      SmallExpressionsCompile(And(Not(a), Not(b)), link, snaplen);
    }
  }

  lemma JointFails(a: ExpandedExpr, b: ExpandedExpr, link: LinkType)
    requires InRange(a) && InRange(b) && IsDirPair(a, b)
    ensures var error, c := LeafError(a, link), CondOf(Not(Or(a, b)), link);
            if error.Some? then c == Err(error.value) else c.Ok?
  {
    PrimFails(a.prim, Some(b.prim.dir), link);
    assert CondOf(Or(a, b), link) == PrimCond(a.prim, Some(b.prim.dir), link);
  }

  lemma ApartFails(a: ExpandedExpr, b: ExpandedExpr, link: LinkType)
    requires InRange(a) && InRange(b) && IsDirPair(a, b)
    ensures InRange(And(Not(a), Not(b)))
    ensures var error, c := LeafError(a, link), CondOf(And(Not(a), Not(b)), link);
            if error.Some? then c == Err(error.value) else c.Ok?
  {
    PrimFails(a.prim, None, link);
    PrimFails(b.prim, None, link);
    assert LeafMismatch(a.prim, link) == LeafMismatch(b.prim, link);
    assert CondOf(a, link) == PrimCond(a.prim, None, link) && CondOf(b, link) == PrimCond(b.prim, None, link);
    BinaryErrors(And(Not(a), Not(b)), link);
  }

  lemma PairIsSmall(a: ExpandedExpr, b: ExpandedExpr, link: LinkType)
    requires InRange(a) && InRange(b) && IsDirPair(a, b)
    ensures InRange(And(Not(a), Not(b)))
    ensures ExprSize(Not(Or(a, b)), link) <= 255 && ExprSize(And(Not(a), Not(b)), link) <= 255
  {
    LeafBound(a.prim, link);
    LeafBound(b.prim, link);
    assert ExprSize(Or(a, b), link) <= 2 * LEAF_SIZE;
    assert ExprSize(Not(a), link) == PrimSize(a.prim, false, link);
    assert ExprSize(Not(b), link) == PrimSize(b.prim, false, link);
  }

  // ----- order -----

  /** One of two verdicts is this one and the other cannot be settled. */
  predicate OneUnsettled(v: M.Verdict, a: M.Verdict, b: M.Verdict) {
    (a == v && b.Unknown?) || (b == v && a.Unknown?)
  }

  /** The order of an `and` makes no difference to the status, on any packet: a program that stops at a bad
      load rejects like one that returns zero. */
  lemma AndStatusCommutes(a: ExpandedExpr, b: ExpandedExpr, link: LinkType, snaplen: u32, packet: Bytes)
    requires Compiles(And(a, b), link, snaplen) && Compiles(And(b, a), link, snaplen)
    ensures StatusOf(And(a, b), link, snaplen, packet) == StatusOf(And(b, a), link, snaplen, packet)
  {
    EndsAsMeant(And(a, b), link, snaplen, packet);
    EndsAsMeant(And(b, a), link, snaplen, packet);
  }

  /** How the two programs come to reject differs exactly when one operand is false and the other cannot be
      settled. */
  lemma AndCommutes(a: ExpandedExpr, b: ExpandedExpr, link: LinkType, snaplen: u32, packet: Bytes)
    requires Compiles(And(a, b), link, snaplen) && Compiles(And(b, a), link, snaplen)
    ensures InRange(a) && InRange(b)
    ensures Ends(And(a, b), link, snaplen, packet) == Ends(And(b, a), link, snaplen, packet) <==>
            !OneUnsettled(M.No, M.ExprMeaning(a, link, packet), M.ExprMeaning(b, link, packet))
  {
    assert InRange(And(a, b));
    EndsAsMeant(And(a, b), link, snaplen, packet);
    EndsAsMeant(And(b, a), link, snaplen, packet);
  }

  /** The order of an `or` does make a difference to the status: exactly when one operand is true and the
      other cannot be settled. The operand that is tried first then decides. */
  lemma OrCommutes(a: ExpandedExpr, b: ExpandedExpr, link: LinkType, snaplen: u32, packet: Bytes)
    requires Compiles(Or(a, b), link, snaplen) && Compiles(Or(b, a), link, snaplen)
    ensures InRange(a) && InRange(b)
    ensures snaplen != 0 ==>
              (StatusOf(Or(a, b), link, snaplen, packet) == StatusOf(Or(b, a), link, snaplen, packet) <==>
               !OneUnsettled(M.Yes, M.ExprMeaning(a, link, packet), M.ExprMeaning(b, link, packet)))
    ensures Ends(Or(a, b), link, snaplen, packet) == Ends(Or(b, a), link, snaplen, packet) <==>
            !OneUnsettled(M.Yes, M.ExprMeaning(a, link, packet), M.ExprMeaning(b, link, packet))
  {
    assert InRange(Or(a, b));
    EndsAsMeant(Or(a, b), link, snaplen, packet);
    EndsAsMeant(Or(b, a), link, snaplen, packet);
  }

  lemma OperandsSettled(e: ExpandedExpr, link: LinkType, snaplen: u32, packet: Bytes)
    requires Compiles(e, link, snaplen) && LongEnough(link, packet)
    requires e.And? || (e.Or? && !IsDirPair(e.left, e.right))
    ensures InRange(e.left) && !M.ExprMeaning(e.left, link, packet).Unknown?
    ensures InRange(e.right) && !M.ExprMeaning(e.right, link, packet).Unknown?
  {
    assert CondOf(e, link).Ok?;
    BinaryErrors(e, link);
    Settled(e.left, link, packet);
    Settled(e.right, link, packet);
  }

  /** On long enough packets neither order matters. */
  lemma AndCommutesOnLong(a: ExpandedExpr, b: ExpandedExpr, link: LinkType, snaplen: u32, packet: Bytes)
    requires Compiles(And(a, b), link, snaplen) && Compiles(And(b, a), link, snaplen) && LongEnough(link, packet)
    ensures Ends(And(a, b), link, snaplen, packet) == Ends(And(b, a), link, snaplen, packet)
  {
    OperandsSettled(And(a, b), link, snaplen, packet);
    AndCommutes(a, b, link, snaplen, packet);
  }

  lemma OrCommutesOnLong(a: ExpandedExpr, b: ExpandedExpr, link: LinkType, snaplen: u32, packet: Bytes)
    requires Compiles(Or(a, b), link, snaplen) && Compiles(Or(b, a), link, snaplen) && LongEnough(link, packet)
    ensures Ends(Or(a, b), link, snaplen, packet) == Ends(Or(b, a), link, snaplen, packet)
  {
    OrCommutes(a, b, link, snaplen, packet);
    if IsDirPair(a, b) {
      LeafExprSettled(a, link, packet);
      LeafExprSettled(b, link, packet);
    } else {
      OperandsSettled(Or(a, b), link, snaplen, packet);
    }
  }

  lemma LeafExprSettled(e: ExpandedExpr, link: LinkType, packet: Bytes)
    requires e.Leaf? && InRange(e) && LongEnough(link, packet)
    ensures !M.ExprMeaning(e, link, packet).Unknown?
  {
    LongSettlesLeaf(e.prim, link, packet);
  }

  // ----- where they fail -----

  const MULTICAST: ExpandedExpr := EtherLeaf(EtherPrimitive(Multicast, Span(0, 0)))
  const PROTO_IP: ExpandedExpr := EtherLeaf(EtherPrimitive(EtherProto(0x0800), Span(0, 0)))

  lemma SmallCompiles(e: ExpandedExpr, snaplen: u32)
    requires InRange(e) && CondOf(e, Ethernet).Ok? && ExprSize(e, Ethernet) <= 255
    ensures Compiles(e, Ethernet, snaplen)
  {
    FitsBySize(e, Ethernet);
    SmallExpressionsCompile(e, Ethernet, snaplen);
  }

  /** A packet of one byte shows the group bit but no ethertype. */
  lemma OneByteSettles(b: u8)
    ensures M.ExprMeaning(MULTICAST, Ethernet, [b]) == (if b % 2 == 1 then M.Yes else M.No)
    ensures M.ExprMeaning(PROTO_IP, Ethernet, [b]).Unknown?
  {
    var packet: Bytes := [b];
    assert packet[0..1] == [b] && [b][..0] == [] && BigEndian([b]) == b;
    assert Pow2(1) == 2;
  }

  /** On one byte `multicast or ether proto 0x800` accepts, and the other way round it rejects. */
  lemma OrNeedsItsOrder(snaplen: u32)
    requires snaplen != 0
    ensures Compiles(Or(MULTICAST, PROTO_IP), Ethernet, snaplen) && Compiles(Or(PROTO_IP, MULTICAST), Ethernet, snaplen)
    ensures StatusOf(Or(MULTICAST, PROTO_IP), Ethernet, snaplen, [1]) == snaplen
    ensures StatusOf(Or(PROTO_IP, MULTICAST), Ethernet, snaplen, [1]) == 0
  {
    SmallCompiles(Or(MULTICAST, PROTO_IP), snaplen);
    SmallCompiles(Or(PROTO_IP, MULTICAST), snaplen);
    OneByteSettles(1);
    EndsAsMeant(Or(MULTICAST, PROTO_IP), Ethernet, snaplen, [1]);
    EndsAsMeant(Or(PROTO_IP, MULTICAST), Ethernet, snaplen, [1]);
  }

  /** On one byte `multicast and ether proto 0x800` returns zero, and the other way round it stops at a bad
      load: a caller sees zero from both. */
  lemma AndNeedsItsOrder(snaplen: u32)
    ensures Compiles(And(MULTICAST, PROTO_IP), Ethernet, snaplen) &&
            Compiles(And(PROTO_IP, MULTICAST), Ethernet, snaplen)
    ensures Ends(And(MULTICAST, PROTO_IP), Ethernet, snaplen, [0]) == Returned(0)
    ensures Ends(And(PROTO_IP, MULTICAST), Ethernet, snaplen, [0]) == BadLoad
  {
    SmallCompiles(And(MULTICAST, PROTO_IP), snaplen);
    SmallCompiles(And(PROTO_IP, MULTICAST), snaplen);
    OneByteSettles(0);
    EndsAsMeant(And(MULTICAST, PROTO_IP), Ethernet, snaplen, [0]);
    EndsAsMeant(And(PROTO_IP, MULTICAST), Ethernet, snaplen, [0]);
  }

  /** On one byte `ether proto 0x800` and its negation both reject. */
  lemma NotNeedsItsField(snaplen: u32)
    ensures Compiles(PROTO_IP, Ethernet, snaplen) && Compiles(Not(PROTO_IP), Ethernet, snaplen)
    ensures StatusOf(PROTO_IP, Ethernet, snaplen, [0]) == 0 && StatusOf(Not(PROTO_IP), Ethernet, snaplen, [0]) == 0
  {
    SmallCompiles(PROTO_IP, snaplen);
    SmallCompiles(Not(PROTO_IP), snaplen);
    OneByteSettles(0);
    EndsAsMeant(PROTO_IP, Ethernet, snaplen, [0]);
    EndsAsMeant(Not(PROTO_IP), Ethernet, snaplen, [0]);
  }
}
