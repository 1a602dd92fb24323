/** Packets long enough that no load can fall past their end. */
module SafeLength {
  import opened Words
  import opened Errors
  import opened Ast
  import opened LinkType
  import opened Vm
  import opened Filters
  import opened GateProofs
  import opened Compiler
  import opened CodeSize
  import opened PortHeaders
  import opened Needs
  import M = Meaning

  /** The furthest byte any filter looks at is the last of a destination port behind a 60-byte IPv4
      header. */
  predicate LongEnough(link: LinkType, packet: Bytes) {
    |packet| >= L3Info(link).ipBase + 64
  }

  lemma LongSettlesLeaf(p: CompiledPrimitive, link: LinkType, packet: Bytes)
    requires PrefixInRange(p.ty) && LongEnough(link, packet)
    ensures !M.LeafMeaning(p, link, packet).Unknown?
  {
    LeafBounded(p, link);
    LeafSettled(p, link, packet);
  }

  /** On a long enough packet every expression that compiles is settled. */
  lemma Settled(e: ExpandedExpr, link: LinkType, packet: Bytes)
    requires InRange(e) && CondOf(e, link).Ok? && LongEnough(link, packet)
    ensures !M.ExprMeaning(e, link, packet).Unknown?
  {
    NeedsBounded(e, link);
    SettledByNeeds(e, link, packet);
  }

  /** A compiled program never loads past the end of a packet that holds what its expression needs. */
  lemma NeverLoadsPastNeeds(e: ExpandedExpr, link: LinkType, snaplen: u32, packet: Bytes)
    requires InRange(e) && FitsAssembler(e, link) && CompiledExpr(e, link, snaplen).Ok?
    requires |packet| >= ExprNeeds(e, link)
    ensures Ending(CompiledExpr(e, link, snaplen).value, packet).Returned?
  {
    SemanticPreservation(e, link, snaplen, packet);
    SettledByNeeds(e, link, packet);
  }

  /** No compiled program ever loads past the end of a packet of at least `ipBase + 64` bytes. */
  lemma NeverLoadsOutOfBounds(e: ExpandedExpr, link: LinkType, snaplen: u32, packet: Bytes)
    requires InRange(e) && FitsAssembler(e, link) && CompiledExpr(e, link, snaplen).Ok?
    requires LongEnough(link, packet)
    ensures Ending(CompiledExpr(e, link, snaplen).value, packet).Returned?
  {
    NeedsBounded(e, link);
    NeverLoadsPastNeeds(e, link, snaplen, packet);
  }

  /** A single leaf's program returns on every packet of at least `n` bytes if and only if `n` is at least what the
      leaf needs. */
  lemma LeafReturnsExactly(e: ExpandedExpr, link: LinkType, snaplen: u32, n: nat)
    requires (e.Leaf? || e.EtherLeaf?) && InRange(e) && FitsAssembler(e, link) && CompiledExpr(e, link, snaplen).Ok?
    ensures (forall packet: Bytes :: |packet| >= n ==> Ending(CompiledExpr(e, link, snaplen).value, packet).Returned?)
            <==> n >= ExprNeeds(e, link)
  {
    LeafNeedsExactly(e, link, n);
    forall packet: Bytes
      ensures Ending(CompiledExpr(e, link, snaplen).value, packet).Returned? <==>
              !M.ExprMeaning(e, link, packet).Unknown?
    {
      SemanticPreservation(e, link, snaplen, packet);
    }
  }

  // ----- the bound is tight -----

  /** A first fragment of TCP behind an IPv4 header of the greatest length, 60 bytes. */
  predicate MaximalTcp(link: LinkType, packet: Bytes) {
    var base := L3Info(link).ipBase;
    && |packet| >= base + 10
    && IsIPv4(link, packet)
    && packet[base] % 16 == 15
    && packet[base + 9] == 6
    && FirstFragment(link, packet)
  }

  /** The bound cannot be lowered: on every link type `tcp dst port 80` compiles, and its program loads past
      the end of any such packet that is one byte too short. */
  lemma SafeLengthIsTight(link: LinkType, snaplen: u32, at: Span, packet: Bytes)
    requires |packet| == L3Info(link).ipBase + 63 && MaximalTcp(link, packet)
    ensures var e := Leaf(CompiledPrimitive(Tcp, Dst, Port(80), at));
            && InRange(e) && FitsAssembler(e, link)
            && CompiledExpr(e, link, snaplen).Ok?
            && Ending(CompiledExpr(e, link, snaplen).value, packet) == BadLoad
  {
    var e := Leaf(CompiledPrimitive(Tcp, Dst, Port(80), at));
    assert ExprSize(e, link) <= 17;
    FitsBySize(e, link);
    SmallExpressionsCompile(e, link, snaplen);
    MaximalHeader(link, packet);
    SemanticPreservation(e, link, snaplen, packet);
  }

  lemma MaximalHeader(link: LinkType, packet: Bytes)
    requires |packet| == L3Info(link).ipBase + 63 && MaximalTcp(link, packet)
    ensures M.Port4Meaning(link, 6, Dst, 80, 80, packet).Unknown?
  {
    var base := L3Info(link).ipBase;
    CarriesIP(link, packet);
    IhlOf(packet, base);
    FragmentOf(packet, base + 6);
    BigEndian1(packet[base + 9..base + 10]);
    assert M.Port4Field(link, Dst, packet) == None;
  }

  /** There are such packets. */
  lemma SafeLengthIsReached(link: LinkType)
    ensures exists packet :: |packet| == L3Info(link).ipBase + 63 && MaximalTcp(link, packet)
  {
    var base := L3Info(link).ipBase;
    var packet: Bytes := seq(base + 63, (i: nat) => PortByte(link, 6, i));
    assert packet[base + 6] == 0 && packet[base + 7] == 0;
    TwoBytes(packet, base + 6);
    if !link.Raw? {
      assert packet[base - 2] == 8 && packet[base - 1] == 0;
      TwoBytes(packet, base - 2);
    }
    assert |packet| == base + 63 && MaximalTcp(link, packet);
  }
}
