/** Single tests and what they settle: the link between a decision's registers and the packet's
    fields. */
module GateProofs {
  import opened Words
  import opened Errors
  import opened Ast
  import opened LinkType
  import opened Vm
  import opened Irep
  import opened Decision
  import opened Filters
  import M = Meaning

  function VerdictOf(o: Outcome): M.Verdict {
    match o
    case Goes(b, _) => M.Truth(b)
    case Abort => M.Unknown
  }

  /** From whatever registers, `c` settles the question as `v`. */
  ghost predicate Decides(c: Cond, packet: Bytes, v: M.Verdict) {
    WellFormed(c) && forall r :: VerdictOf(Decide(c, r, packet)) == v
  }

  // ----- combinations -----

  lemma NegateDecides(c: Cond, packet: Bytes, v: M.Verdict)
    requires Decides(c, packet, v)
    ensures Decides(Negate(c), packet, v.Negated())
  {
    forall r ensures VerdictOf(Decide(Negate(c), r, packet)) == v.Negated() {
      assert VerdictOf(Decide(c, r, packet)) == v;
    }
  }

  lemma BothDecides(c1: Cond, c2: Cond, packet: Bytes, v1: M.Verdict, v2: M.Verdict)
    requires Decides(c1, packet, v1) && Decides(c2, packet, v2)
    ensures Decides(Both(c1, c2), packet, v1.AndThen(v2))
  {
    forall r ensures VerdictOf(Decide(Both(c1, c2), r, packet)) == v1.AndThen(v2) {
      assert VerdictOf(Decide(c1, r, packet)) == v1;
    }
  }

  lemma EitherDecides(c1: Cond, c2: Cond, packet: Bytes, v1: M.Verdict, v2: M.Verdict)
    requires Decides(c1, packet, v1) && Decides(c2, packet, v2)
    ensures Decides(Either(c1, c2), packet, v1.OrElse(v2))
  {
    forall r ensures VerdictOf(Decide(Either(c1, c2), r, packet)) == v1.OrElse(v2) {
      assert VerdictOf(Decide(c1, r, packet)) == v1;
    }
  }

  // ----- loads read fields -----

  lemma BigEndian1(s: Bytes)
    requires |s| == 1
    ensures BigEndian(s) == s[0]
  {
    assert s[..0] == [];
  }

  lemma BigEndian2(s: Bytes)
    requires |s| == 2
    ensures BigEndian(s) == s[0] as int * 0x100 + s[1] as int
  {
    BigEndian1(s[..1]);
  }

  lemma BigEndian4(s: Bytes)
    requires |s| == 4
    ensures BigEndian(s) == ((s[0] as int * 0x100 + s[1] as int) * 0x100 + s[2] as int) * 0x100 + s[3] as int
  {
    BigEndian2(s[..3][..2]);
    assert s[..3][..2][0] == s[0] && s[..3][..2][1] == s[1];
  }

  /** The field an absolute load reads. */
  function LoadedField(op: IrOp2, packet: Bytes): Option<nat>
    requires op.LdhAbs? || op.LdbAbs? || op.LdwAbs?
  {
    M.Field(packet, op.k, if op.LdbAbs? then 1 else if op.LdhAbs? then 2 else 4)
  }

  lemma LoadReadsField(op: IrOp2, r: Regs, packet: Bytes)
    requires op.LdhAbs? || op.LdbAbs? || op.LdwAbs?
    ensures var f := LoadedField(op, packet);
            (f.Some? ==> f.value < 0x1_0000_0000 && Load(MachineOp(op), r, packet) == Some(r.(a := f.value))) &&
            (f.None? ==> Load(MachineOp(op), r, packet) == None)
  {
    if op.LdbAbs? && op.k + 1 <= |packet| {
      BigEndian1(packet[op.k..op.k + 1]);
    } else if op.LdhAbs? && op.k + 2 <= |packet| {
      BigEndian2(packet[op.k..op.k + 2]);
    } else if op.LdwAbs? && op.k + 4 <= |packet| {
      BigEndian4(packet[op.k..op.k + 4]);
    }
  }

  lemma HalfwordRead(packet: Bytes, offset: nat)
    ensures ReadU16(packet, offset) == M.Field(packet, offset, 2)
  {
    if offset + 2 <= |packet| {
      BigEndian2(packet[offset..offset + 2]);
    }
  }

  lemma ByteRead(packet: Bytes, offset: nat)
    ensures ReadU8(packet, offset) == M.Field(packet, offset, 1)
  {
    if offset + 1 <= |packet| {
      BigEndian1(packet[offset..offset + 1]);
    }
  }

  lemma OneLoad(op: IrOp2, r: Regs, packet: Bytes)
    requires IsStraight(op)
    ensures Straight([op]) && Loads([op], r, packet) == Load(MachineOp(op), r, packet)
  {
    assert [op][1..] == [];
    var next := Load(MachineOp(op), r, packet);
    if next.Some? {
      assert Loads([], next.value, packet) == next;
    }
  }

  lemma TwoLoads(op1: IrOp2, op2: IrOp2, r: Regs, packet: Bytes)
    requires IsStraight(op1) && IsStraight(op2)
    ensures Straight([op1, op2])
    ensures var next := Load(MachineOp(op1), r, packet);
            Loads([op1, op2], r, packet) == if next.Some? then Load(MachineOp(op2), next.value, packet) else None
  {
    assert [op1, op2][1..] == [op2];
    var next := Load(MachineOp(op1), r, packet);
    if next.Some? {
      OneLoad(op2, next.value, packet);
    }
  }

  /** A test with one absolute load compares the field it reads. */
  lemma EqDecides(op: IrOp2, imm: u32, at: Span, packet: Bytes)
    requires op.LdhAbs? || op.LdbAbs? || op.LdwAbs?
    ensures Decides(Test([op], Eq, imm, at), packet, M.FieldIs(LoadedField(op, packet), imm))
  {
    forall r ensures VerdictOf(Decide(Test([op], Eq, imm, at), r, packet)) == M.FieldIs(LoadedField(op, packet), imm) {
      LoadReadsField(op, r, packet);
      OneLoad(op, r, packet);
    }
  }

  /** A load masked before it is compared. */
  lemma MaskedDecides(op: IrOp2, mask: u32, imm: u32, at: Span, packet: Bytes, v: M.Verdict)
    requires op.LdhAbs? || op.LdbAbs? || op.LdwAbs?
    requires var f := LoadedField(op, packet);
             v == if f.Some? then M.Truth(BitAnd(f.value, mask) == imm) else M.Unknown
    ensures Decides(Test([op, AndK(mask)], Eq, imm, at), packet, v)
  {
    forall r ensures VerdictOf(Decide(Test([op, AndK(mask)], Eq, imm, at), r, packet)) == v {
      LoadReadsField(op, r, packet);
      TwoLoads(op, AndK(mask), r, packet);
    }
  }

  /** A load whose bits are tested. */
  lemma SetDecides(op: IrOp2, mask: u32, at: Span, packet: Bytes, v: M.Verdict)
    requires op.LdhAbs? || op.LdbAbs? || op.LdwAbs?
    requires var f := LoadedField(op, packet);
             v == if f.Some? then M.Truth(BitAnd(f.value, mask) != 0) else M.Unknown
    ensures Decides(Test([op], Set, mask, at), packet, v)
  {
    forall r ensures VerdictOf(Decide(Test([op], Set, mask, at), r, packet)) == v {
      LoadReadsField(op, r, packet);
      OneLoad(op, r, packet);
    }
  }

  // ----- gates -----

  function EthertypeConst(family: M.Family): u32 {
    match family
    case IPv4 => ETH_TYPE_IP
    case IPv6 => ETH_TYPE_IPV6
    case ARP => ETH_TYPE_ARP
    case RARP => ETH_TYPE_RARP
  }

  lemma VersionNibble(b: nat, version: nat)
    requires b < 0x100 && version < 0x10
    ensures BitAnd(b, 0xf0) == 0x10 * version <==> b / Pow2(4) == version
  {
    Pow2Values();
    AndHighMask(b, 4, 4, 15, 16);
  }

  lemma ByteBound(packet: Bytes, offset: nat)
    ensures M.Field(packet, offset, 1).Some? ==> M.Field(packet, offset, 1).value < 0x100
  {
    if offset + 1 <= |packet| {
      BigEndian1(packet[offset..offset + 1]);
    }
  }

  lemma L3GateDecides(link: LinkType, family: M.Family, at: Span, packet: Bytes)
    requires link.Raw? ==> family.IPv4? || family.IPv6?
    ensures Decides(L3Gate(link, EthertypeConst(family), at), packet, M.Carries(link, family, packet))
  {
    var info := L3Info(link);
    if link.Raw? {
      var version := if family.IPv4? then 4 else 6;
      var f := M.Field(packet, 0, 1);
      ByteBound(packet, 0);
      if f.Some? {
        VersionNibble(f.value, version);
      }
      MaskedDecides(LdbAbs(0), 0xf0, 0x10 * version, at, packet, M.Carries(link, family, packet));
    } else {
      EqDecides(LdhAbs(info.ethertypeOffset.value), EthertypeConst(family), at, packet);
    }
  }

  lemma ByteGateDecides(link: LinkType, family: M.Family, num: u32, at: Span, packet: Bytes)
    ensures Decides(ByteGate(link, if family.IPv6? then IP6_NEXTHDR_OFFSET else IP_PROTO_OFFSET, num, at), packet,
                    M.ProtocolIs(link, family, num, packet))
  {
    EqDecides(LdbAbs(L3Info(link).ipBase + (if family.IPv6? then IP6_NEXTHDR_OFFSET else IP_PROTO_OFFSET)), num, at,
              packet);
  }

  /** The gates of a protocol let a packet through exactly when it carries that protocol. */
  lemma GatesDecide(link: LinkType, family: M.Family, num: Option<u32>, at: Span, body: Cond, packet: Bytes,
        v: M.Verdict)
    requires link.Raw? ==> family.IPv4? || family.IPv6?
    requires Decides(body, packet, v)
    ensures var gates := Gates(link, EthertypeConst(family),
                               if family.IPv6? then IP6_NEXTHDR_OFFSET else IP_PROTO_OFFSET, num, at);
            var gate := M.Carries(link, family, packet);
            Decides(Guarded(gates, body), packet,
                    if num.Some? then gate.AndThen(M.ProtocolIs(link, family, num.value, packet)).AndThen(v)
                    else gate.AndThen(v))
  {
    var field := if family.IPv6? then IP6_NEXTHDR_OFFSET else IP_PROTO_OFFSET;
    var l3 := L3Gate(link, EthertypeConst(family), at);
    L3GateDecides(link, family, at, packet);
    var carries := M.Carries(link, family, packet);
    if num.Some? {
      var byte := ByteGate(link, field, num.value, at);
      ByteGateDecides(link, family, num.value, at, packet);
      var proto := M.ProtocolIs(link, family, num.value, packet);
      BothDecides(byte, body, packet, proto, v);
      BothDecides(l3, Both(byte, body), packet, carries, proto.AndThen(v));
      assert Guarded([byte], body) == Both(byte, body) by {
        assert [byte][1..] == [];
      }
      assert [l3, byte][1..] == [byte];
    } else {
      BothDecides(l3, body, packet, carries, v);
      assert [l3][1..] == [];
    }
  }

  lemma FragMask(v: nat)
    ensures BitAnd(v, FRAG_MASK) == v % Pow2(13)
  {
    Pow2Values();
    AndLowMask(v, 13);
  }

  lemma NotFragmentDecides(link: LinkType, at: Span, packet: Bytes)
    ensures Decides(NotFragmentGate(link, at), packet,
                    M.FieldIs(M.Below(M.Field(packet, L3Info(link).ipBase + 6, 2), 13), 0))
  {
    var op := LdhAbs(L3Info(link).ipBase + IP_FLAGS_FRAG_OFFSET);
    var f := LoadedField(op, packet);
    var v := if f.Some? then M.Truth(BitAnd(f.value, FRAG_MASK) != 0) else M.Unknown;
    SetDecides(op, FRAG_MASK, at, packet, v);
    NegateDecides(Test([op], Set, FRAG_MASK, at), packet, v);
    assert v.Negated() == M.FieldIs(M.Below(f, 13), 0) by {
      if f.Some? {
        FragMask(f.value);
      }
    }
  }

  lemma MacTestDecides(field: u8, mac: MacAddr, at: Span, packet: Bytes)
    ensures Decides(MacTest(field, mac, at), packet, M.MacIs(packet, field, mac))
  {
    EqDecides(LdwAbs(field), MacHigh(mac), at, packet);
    EqDecides(LdhAbs(field + 4), MacLow(mac), at, packet);
    BigEndian4(mac[..4]);
    BigEndian2(mac[4..]);
    BothDecides(Test([LdwAbs(field)], Eq, MacHigh(mac), at), Test([LdhAbs(field + 4)], Eq, MacLow(mac), at), packet,
                M.FieldIs(M.Field(packet, field, 4), MacHigh(mac)),
                M.FieldIs(M.Field(packet, field + 4, 2), MacLow(mac)));
  }

  /** A link-layer leaf settles exactly the question its meaning states. */
  lemma EtherDecides(e: EtherPrimitive, link: LinkType, packet: Bytes)
    requires EtherCond(e, link).Ok?
    ensures Decides(EtherCond(e, link).value, packet, M.EtherMeaning(e.kind, packet))
  {
    match e.kind
    case EtherHost(mac, dir) =>
      MacTestDecides(ETH_SRC_MAC_OFFSET, mac, e.at, packet);
      MacTestDecides(ETH_DST_MAC_OFFSET, mac, e.at, packet);
      if dir.None? {
        EitherDecides(MacTest(ETH_DST_MAC_OFFSET, mac, e.at), MacTest(ETH_SRC_MAC_OFFSET, mac, e.at), packet,
                      M.MacIs(packet, 0, mac), M.MacIs(packet, 6, mac));
      }
    case EtherProto(ethertype) =>
      EqDecides(LdhAbs(12), ethertype, e.at, packet);
    case Broadcast =>
      MacTestDecides(ETH_DST_MAC_OFFSET, ETH_MAC_BROADCAST, e.at, packet);
    case Multicast =>
      var f := LoadedField(LdbAbs(0), packet);
      if f.Some? {
        Pow2Values();
        AndLowMask(f.value, 1);
      }
      SetDecides(LdbAbs(0), 0x01, e.at, packet, M.EtherMeaning(e.kind, packet));
  }
}
