/** Every expression's decision settles exactly the question the expression asks, shared prologues
    included. */
module LeafProofs {
  import opened Words
  import opened Errors
  import opened Ast
  import opened LinkType
  import opened Vm
  import opened Irep
  import opened Decision
  import opened Filters
  import opened GateProofs
  import opened PrefixProofs
  import M = Meaning

  // ----- addresses -----

  /** One direction's test, or two in turn, settle the one question or the other. */
  lemma InTurnDecides(c1: Cond, c2: Option<Cond>, packet: Bytes, v1: M.Verdict, v2: M.Verdict)
    requires Decides(c1, packet, v1)
    requires c2.Some? ==> Decides(c2.value, packet, v2)
    ensures Decides(InTurn(c1, c2), packet, if c2.Some? then v1.OrElse(v2) else v1)
  {
    if c2.Some? {
      EitherDecides(c1, c2.value, packet, v1, v2);
    }
  }

  function Facing(p: CompiledPrimitive, dir: DirTag): CompiledPrimitive {
    p.(dir := dir)
  }

  /** The meaning of a leaf or, with `second`, of the `or` of the leaf and its mirror image. */
  function PrimMeaning(p: CompiledPrimitive, second: Option<DirTag>, link: LinkType, packet: Bytes): M.Verdict
    requires PrefixInRange(p.ty)
  {
    var v := M.LeafMeaning(p, link, packet);
    match second
    case Some(dir) => v.OrElse(M.LeafMeaning(Facing(p, dir), link, packet))
    case None => v
  }

  /** The gates distribute over the two directions behind them. */
  lemma GateDistributes(gate: M.Verdict, v1: M.Verdict, v2: M.Verdict)
    ensures gate.AndThen(v1.OrElse(v2)) == gate.AndThen(v1).OrElse(gate.AndThen(v2))
  {
  }

  function AddressGate(proto: CompiledProto, link: LinkType, packet: Bytes): M.Verdict {
    var family := M.FamilyOf(proto);
    match M.TransportOf(proto)
    case Some(num) => M.Carries(link, family, packet).AndThen(M.ProtocolIs(link, family, num, packet))
    case None => M.Carries(link, family, packet)
  }

  /** What the address in one direction is compared for, once the gates have passed. */
  function AddressHere(p: CompiledPrimitive, dir: DirTag, link: LinkType, packet: Bytes): M.Verdict
    requires (p.ty.Host? || p.ty.Net?) && PrefixInRange(p.ty)
  {
    var o := L3Info(link).ipBase + M.AddressAt(M.FamilyOf(p.proto), dir);
    match p.ty.addr
    case V4(a) => M.InNetwork4(packet, o, a, M.PrefixOf(p.ty))
    case V6(a) => M.InNetwork6(packet, o, 4, a, M.PrefixOf(p.ty))
  }

  lemma AddressMeaningGates(p: CompiledPrimitive, second: Option<DirTag>, link: LinkType, packet: Bytes)
    requires (p.ty.Host? || p.ty.Net?) && PrefixInRange(p.ty)
    ensures var here := AddressHere(p, p.dir, link, packet);
            PrimMeaning(p, second, link, packet) ==
            AddressGate(p.proto, link, packet).AndThen(
              if second.Some? then here.OrElse(AddressHere(p, second.value, link, packet)) else here)
  {
    var gate, here := AddressGate(p.proto, link, packet), AddressHere(p, p.dir, link, packet);
    assert M.LeafMeaning(p, link, packet) == gate.AndThen(here);
    if second.Some? {
      var there := AddressHere(p, second.value, link, packet);
      assert M.LeafMeaning(Facing(p, second.value), link, packet) == gate.AndThen(there);
      GateDistributes(gate, here, there);
    }
  }

  /** The gates of an address check, and the comparison behind them. */
  lemma AddressDecides(p: CompiledPrimitive, gates: AddrGates, body: Cond, link: LinkType, packet: Bytes, v: M.Verdict)
    requires p.proto != Sctp && (if p.proto.Ip6? then gates == IP6_GATES else AddrGatesOf(p.proto, p.at) == Ok(gates))
    requires EnsureEthertypeAvailable(L3Info(link).ethertypeOffset, gates, p.at).Ok?
    requires Decides(body, packet, v)
    ensures Decides(Guarded(Gates(link, gates.ethertype, if p.proto.Ip6? then IP6_NEXTHDR_OFFSET else IP_PROTO_OFFSET,
                                  gates.ipProto, p.at), body),
                    packet, AddressGate(p.proto, link, packet).AndThen(v))
  {
    GatesDecide(link, M.FamilyOf(p.proto), gates.ipProto, p.at, body, packet, v);
  }

  lemma Addr4Decides(p: CompiledPrimitive, second: Option<DirTag>, link: LinkType, addr: u32, prefix: Option<u8>,
        packet: Bytes)
    requires prefix.Some? ==> prefix.value <= 32
    requires p.ty.Host? || p.ty.Net?
    requires p.ty.addr == V4(addr) && PrefixInRange(p.ty) &&
             M.PrefixOf(p.ty) == (if prefix.Some? then prefix.value else 32)
    requires Addr4Cond(p, second, link, addr, prefix).Ok?
    ensures Decides(Addr4Cond(p, second, link, addr, prefix).value, packet, PrimMeaning(p, second, link, packet))
  {
    var gates := AddrGatesOf(p.proto, p.at).value;
    var mask := if prefix.Some? then Some(Netmask(prefix.value)) else None;
    var target := if mask.Some? then BitAnd(addr, mask.value) else addr;
    var dir2 := if second.Some? then second.value else p.dir;
    var c1 := AddrTest(link, Step(gates, p.dir), mask, target, p.at);
    var c2 := if second.Some? then Some(AddrTest(link, Step(gates, second.value), mask, target, p.at)) else None;
    var v1, v2 := AddressHere(p, p.dir, link, packet), AddressHere(p, dir2, link, packet);
    Addr4TestDecides(p, gates, p.dir, link, addr, prefix, packet);
    Addr4TestDecides(p, gates, dir2, link, addr, prefix, packet);
    InTurnDecides(c1, c2, packet, v1, v2);
    AddressDecides(p, gates, InTurn(c1, c2), link, packet, if second.Some? then v1.OrElse(v2) else v1);
    AddressMeaningGates(p, second, link, packet);
  }

  lemma Addr4TestDecides(p: CompiledPrimitive, gates: AddrGates, dir: DirTag, link: LinkType, addr: u32,
        prefix: Option<u8>, packet: Bytes)
    requires prefix.Some? ==> prefix.value <= 32
    requires (p.ty.Host? || p.ty.Net?) && p.ty.addr == V4(addr) && PrefixInRange(p.ty)
    requires M.PrefixOf(p.ty) == (if prefix.Some? then prefix.value else 32)
    requires AddrGatesOf(p.proto, p.at) == Ok(gates)
    ensures var mask := if prefix.Some? then Some(Netmask(prefix.value)) else None;
            var target := if mask.Some? then BitAnd(addr, mask.value) else addr;
            Decides(AddrTest(link, Step(gates, dir), mask, target, p.at), packet, AddressHere(p, dir, link, packet))
  {
    AddrTestDecides(link, Step(gates, dir), addr, prefix, p.at, packet);
  }

  lemma Addr6Decides(p: CompiledPrimitive, second: Option<DirTag>, link: LinkType, addr: u128, prefix: Option<u8>,
        packet: Bytes)
    requires prefix.Some? ==> prefix.value <= 128
    requires p.ty.Host? || p.ty.Net?
    requires p.ty.addr == V6(addr) && PrefixInRange(p.ty) &&
             M.PrefixOf(p.ty) == (if prefix.Some? then prefix.value else 128)
    requires Addr6Cond(p, second, link, addr, prefix).Ok?
    ensures Decides(Addr6Cond(p, second, link, addr, prefix).value, packet, PrimMeaning(p, second, link, packet))
  {
    var bits := M.PrefixOf(p.ty);
    var dir2 := if second.Some? then second.value else p.dir;
    var c1 := Addr6Test(link, Step(IP6_GATES, p.dir), addr, bits, p.at);
    var c2 := if second.Some? then Some(Addr6Test(link, Step(IP6_GATES, second.value), addr, bits, p.at)) else None;
    var v1, v2 := AddressHere(p, p.dir, link, packet), AddressHere(p, dir2, link, packet);
    Addr6TestDecides(link, Step(IP6_GATES, p.dir), addr, bits, p.at, packet);
    Addr6TestDecides(link, Step(IP6_GATES, dir2), addr, bits, p.at, packet);
    InTurnDecides(c1, c2, packet, v1, v2);
    AddressDecides(p, IP6_GATES, InTurn(c1, c2), link, packet, if second.Some? then v1.OrElse(v2) else v1);
    AddressMeaningGates(p, second, link, packet);
  }

  // ----- ports -----

  /** A port comparison settles whether the loaded port lies in the range, and keeps the registers its
      loads left. */
  lemma PortCompareOutcome(pre: seq<IrOp2>, lo: u16, hi: u16, at: Span, r: Regs, packet: Bytes)
    requires Straight(pre)
    ensures WellFormed(PortCompare(pre, lo, hi, at))
    ensures Decide(PortCompare(pre, lo, hi, at), r, packet) ==
            match Loads(pre, r, packet)
            case Some(r') => Goes(lo <= r'.a <= hi, r')
            case None => Abort
  {
    var loaded := Loads(pre, r, packet);
    if loaded.Some? && lo != hi {
      var upper := Test([], Gt, hi, at);
      assert Loads([], loaded.value, packet) == loaded;
      assert Decide(upper, loaded.value, packet) == Goes(loaded.value.a > hi, loaded.value);
      assert Decide(Negate(upper), loaded.value, packet) == Goes(loaded.value.a <= hi, loaded.value);
      assert Decide(Test(pre, Ge, lo, at), r, packet) == Goes(loaded.value.a >= lo, loaded.value);
    }
  }

  lemma MshLoads(link: LinkType, r: Regs, packet: Bytes)
    ensures var ihl := M.Below(M.Field(packet, L3Info(link).ipBase, 1), 4);
            Load(MachineOp(LdxMsh(L3Info(link).ipBase)), r, packet) ==
            if ihl.Some? then Some(r.(x := 4 * ihl.value)) else None
    ensures var ihl := M.Below(M.Field(packet, L3Info(link).ipBase, 1), 4);
            ihl.Some? ==> ihl.value < 16
  {
    ByteRead(packet, L3Info(link).ipBase);
    var f := M.Field(packet, L3Info(link).ipBase, 1);
    if f.Some? {
      LowNibble(f.value);
    }
  }

  lemma LowNibble(b: nat)
    ensures M.Below(Some(b), 4) == Some(BitAnd(b, 0x0f)) && BitAnd(b, 0x0f) < 16
  {
    Pow2Values();
    AndLowMask(b, 4);
  }

  /** With the header length in X, a port load reads the port of its direction. */
  lemma Port4LoadReads(link: LinkType, dir: DirTag, r: Regs, packet: Bytes)
    requires var ihl := M.Below(M.Field(packet, L3Info(link).ipBase, 1), 4);
             ihl.Some? && r.x == 4 * ihl.value
    ensures Straight([Port4Load(link, dir)])
    ensures var f := M.Port4Field(link, dir, packet);
            var loaded := Loads([Port4Load(link, dir)], r, packet);
            if f.Some? then f.value < 0x1_0000 && loaded == Some(r.(a := f.value)) else loaded == None
  {
    var o := r.x + L3Info(link).ipBase + PortRel(dir);
    HalfwordRead(packet, o);
    OneLoad(Port4Load(link, dir), r, packet);
  }

  lemma FirstPort4(link: LinkType, dir: DirTag, r: Regs, packet: Bytes)
    ensures var pre := [LdxMsh(L3Info(link).ipBase), Port4Load(link, dir)];
            var f := M.Port4Field(link, dir, packet);
            var ihl := M.Below(M.Field(packet, L3Info(link).ipBase, 1), 4);
            && Straight(pre)
            && (f.Some? ==> ihl.Some? && f.value < 0x1_0000)
            && (f.Some? ==> Loads(pre, r, packet) == Some(Regs(f.value, 4 * ihl.value)))
            && (f.None? ==> Loads(pre, r, packet) == None)
  {
    var msh := LdxMsh(L3Info(link).ipBase);
    MshLoads(link, r, packet);
    TwoLoads(msh, Port4Load(link, dir), r, packet);
    var next := Load(MachineOp(msh), r, packet);
    if next.Some? {
      Port4LoadReads(link, dir, next.value, packet);
      OneLoad(Port4Load(link, dir), next.value, packet);
    }
  }

  /** The IPv4 ports of one direction, or of both in turn: X still holds the header length when the
      second port is loaded. */
  lemma Ports4Decide(link: LinkType, dir: DirTag, second: Option<DirTag>, lo: u16, hi: u16, at: Span, packet: Bytes)
    ensures var c1 := PortCompare([LdxMsh(L3Info(link).ipBase), Port4Load(link, dir)], lo, hi, at);
            var c2 := if second.Some? then Some(PortCompare([Port4Load(link, second.value)], lo, hi, at)) else None;
            var v1 := M.FieldWithin(M.Port4Field(link, dir, packet), lo, hi);
            Decides(InTurn(c1, c2), packet,
                    if second.Some? then v1.OrElse(M.FieldWithin(M.Port4Field(link, second.value, packet), lo, hi))
                    else v1)
  {
    var pre := [LdxMsh(L3Info(link).ipBase), Port4Load(link, dir)];
    var c1 := PortCompare(pre, lo, hi, at);
    var c2 := if second.Some? then Some(PortCompare([Port4Load(link, second.value)], lo, hi, at)) else None;
    var v1 := M.FieldWithin(M.Port4Field(link, dir, packet), lo, hi);
    var v := if second.Some? then v1.OrElse(M.FieldWithin(M.Port4Field(link, second.value, packet), lo, hi)) else v1;
    if second.Some? {
      OneLoad(Port4Load(link, second.value), Regs(0, 0), packet);
      PortCompareOutcome([Port4Load(link, second.value)], lo, hi, at, Regs(0, 0), packet);
    }
    FirstPort4(link, dir, Regs(0, 0), packet);
    PortCompareOutcome(pre, lo, hi, at, Regs(0, 0), packet);
    forall r ensures VerdictOf(Decide(InTurn(c1, c2), r, packet)) == v {
      FirstPort4(link, dir, r, packet);
      PortCompareOutcome(pre, lo, hi, at, r, packet);
      var o := Decide(c1, r, packet);
      if second.Some? && o.Goes? {
        Port4LoadReads(link, second.value, o.regs, packet);
        PortCompareOutcome([Port4Load(link, second.value)], lo, hi, at, o.regs, packet);
      }
    }
  }

  lemma Port6Decides(link: LinkType, dir: DirTag, lo: u16, hi: u16, at: Span, packet: Bytes)
    ensures Decides(PortCompare([Port6Load(link, dir)], lo, hi, at), packet,
                    M.FieldWithin(M.Field(packet, L3Info(link).ipBase + 40 + M.PortAt(dir), 2), lo, hi))
  {
    var load := Port6Load(link, dir);
    var v := M.FieldWithin(M.Field(packet, L3Info(link).ipBase + 40 + M.PortAt(dir), 2), lo, hi);
    OneLoad(load, Regs(0, 0), packet);
    PortCompareOutcome([load], lo, hi, at, Regs(0, 0), packet);
    forall r ensures VerdictOf(Decide(PortCompare([load], lo, hi, at), r, packet)) == v {
      LoadReadsField(load, r, packet);
      OneLoad(load, r, packet);
      PortCompareOutcome([load], lo, hi, at, r, packet);
    }
  }

  /** All the IPv4 gates of a port check. */
  function Port4Gate(link: LinkType, num: nat, packet: Bytes): M.Verdict {
    M.Carries(link, M.IPv4, packet)
      .AndThen(M.ProtocolIs(link, M.IPv4, num, packet))
      .AndThen(M.FieldIs(M.Below(M.Field(packet, L3Info(link).ipBase + 6, 2), 13), 0))
  }

  function Port6Gate(link: LinkType, num: nat, packet: Bytes): M.Verdict {
    M.Carries(link, M.IPv6, packet).AndThen(M.ProtocolIs(link, M.IPv6, num, packet))
  }

  function Port4Within(link: LinkType, dir: DirTag, lo: nat, hi: nat, packet: Bytes): M.Verdict {
    M.FieldWithin(M.Port4Field(link, dir, packet), lo, hi)
  }

  function Port6Within(link: LinkType, dir: DirTag, lo: nat, hi: nat, packet: Bytes): M.Verdict {
    M.FieldWithin(M.Field(packet, L3Info(link).ipBase + 40 + M.PortAt(dir), 2), lo, hi)
  }

  lemma Port4CondDecides(link: LinkType, num: u32, dir: DirTag, second: Option<DirTag>, lo: u16, hi: u16, at: Span,
        packet: Bytes)
    ensures var v1 := Port4Within(link, dir, lo, hi, packet);
            Decides(Port4Cond(link, num, dir, second, lo, hi, at), packet,
                    Port4Gate(link, num, packet).AndThen(
                      if second.Some? then v1.OrElse(Port4Within(link, second.value, lo, hi, packet)) else v1))
  {
    var v1 := Port4Within(link, dir, lo, hi, packet);
    var v := if second.Some? then v1.OrElse(Port4Within(link, second.value, lo, hi, packet)) else v1;
    var ports := InTurn(PortCompare([LdxMsh(L3Info(link).ipBase), Port4Load(link, dir)], lo, hi, at),
                        if second.Some? then Some(PortCompare([Port4Load(link, second.value)], lo, hi, at)) else None);
    Ports4Decide(link, dir, second, lo, hi, at, packet);
    NotFragmentDecides(link, at, packet);
    var whole := M.FieldIs(M.Below(M.Field(packet, L3Info(link).ipBase + 6, 2), 13), 0);
    BothDecides(NotFragmentGate(link, at), ports, packet, whole, v);
    GatesDecide(link, M.IPv4, Some(num), at, Both(NotFragmentGate(link, at), ports), packet, whole.AndThen(v));
    GuardedLast(Gates(link, ETH_TYPE_IP, IP_PROTO_OFFSET, Some(num), at), NotFragmentGate(link, at), ports);
  }

  lemma {:induction false} GuardedLast(gates: seq<Cond>, gate: Cond, body: Cond)
    ensures Guarded(gates + [gate], body) == Guarded(gates, Both(gate, body))
  {
    if gates == [] {
      assert gates + [gate] == [gate];
      assert [gate][1..] == [];
    } else {
      assert (gates + [gate])[1..] == gates[1..] + [gate];
      GuardedLast(gates[1..], gate, body);
    }
  }

  lemma Port6CondDecides(link: LinkType, num: u32, dir: DirTag, second: Option<DirTag>, lo: u16, hi: u16, at: Span,
        packet: Bytes)
    ensures var v1 := Port6Within(link, dir, lo, hi, packet);
            Decides(Port6Cond(link, num, dir, second, lo, hi, at), packet,
                    Port6Gate(link, num, packet).AndThen(
                      if second.Some? then v1.OrElse(Port6Within(link, second.value, lo, hi, packet)) else v1))
  {
    var v1 := Port6Within(link, dir, lo, hi, packet);
    var dir2 := if second.Some? then second.value else dir;
    var v2 := Port6Within(link, dir2, lo, hi, packet);
    var c1, c2 := PortCompare([Port6Load(link, dir)], lo, hi, at), PortCompare([Port6Load(link, dir2)], lo, hi, at);
    Port6Decides(link, dir, lo, hi, at, packet);
    Port6Decides(link, dir2, lo, hi, at, packet);
    InTurnDecides(c1, if second.Some? then Some(c2) else None, packet, v1, v2);
    GatesDecide(link, M.IPv6, Some(num), at, InTurn(c1, if second.Some? then Some(c2) else None), packet,
                if second.Some? then v1.OrElse(v2) else v1);
  }

  /** No packet carries both IPv4 and IPv6. */
  lemma OneFamily(link: LinkType, packet: Bytes)
    ensures M.Carries(link, M.IPv4, packet).Yes? ==> M.Carries(link, M.IPv6, packet).No?
    ensures M.Carries(link, M.IPv4, packet).Unknown? <==> M.Carries(link, M.IPv6, packet).Unknown?
  {
  }

  /** Trying both directions within IPv4 and then within IPv6 is trying IPv4 and IPv6 for one direction
      and then for the other. */
  lemma PortsInterleave(link: LinkType, num: nat, dir1: DirTag, dir2: DirTag, lo: nat, hi: nat, packet: Bytes)
    ensures var g4, g6 := Port4Gate(link, num, packet), Port6Gate(link, num, packet);
            var s4, d4 := Port4Within(link, dir1, lo, hi, packet), Port4Within(link, dir2, lo, hi, packet);
            var s6, d6 := Port6Within(link, dir1, lo, hi, packet), Port6Within(link, dir2, lo, hi, packet);
            g4.AndThen(s4.OrElse(d4)).OrElse(g6.AndThen(s6.OrElse(d6))) ==
            g4.AndThen(s4).OrElse(g6.AndThen(s6)).OrElse(g4.AndThen(d4).OrElse(g6.AndThen(d6)))
  {
    OneFamily(link, packet);
  }

  lemma PortMeaningGates(p: CompiledPrimitive, num: nat, lo: nat, hi: nat, link: LinkType, packet: Bytes)
    requires M.TransportOf(p.proto) == Some(num)
    ensures M.PortMeaning(p, lo, hi, link, packet) ==
            Port4Gate(link, num, packet).AndThen(Port4Within(link, p.dir, lo, hi, packet))
              .OrElse(Port6Gate(link, num, packet).AndThen(Port6Within(link, p.dir, lo, hi, packet)))
  {
  }

  lemma PortPrimMeaning(p: CompiledPrimitive, second: Option<DirTag>, num: nat, lo: u16, hi: u16, link: LinkType,
        packet: Bytes)
    requires (p.ty == Port(lo) && lo == hi) || p.ty == PortRange(lo, hi)
    requires M.TransportOf(p.proto) == Some(num)
    ensures var s4, s6 := Port4Within(link, p.dir, lo, hi, packet), Port6Within(link, p.dir, lo, hi, packet);
            var v4 := if second.Some? then s4.OrElse(Port4Within(link, second.value, lo, hi, packet)) else s4;
            var v6 := if second.Some? then s6.OrElse(Port6Within(link, second.value, lo, hi, packet)) else s6;
            PrimMeaning(p, second, link, packet) ==
            Port4Gate(link, num, packet).AndThen(v4).OrElse(Port6Gate(link, num, packet).AndThen(v6))
  {
    PortMeaningGates(p, num, lo, hi, link, packet);
    if second.Some? {
      PortMeaningGates(Facing(p, second.value), num, lo, hi, link, packet);
      PortsInterleave(link, num, p.dir, second.value, lo, hi, packet);
    }
  }

  lemma PortDecides(p: CompiledPrimitive, second: Option<DirTag>, link: LinkType, lo: u16, hi: u16, packet: Bytes)
    requires (p.ty == Port(lo) && lo == hi) || p.ty == PortRange(lo, hi)
    requires PortCond(p, second, link, lo, hi).Ok?
    ensures Decides(PortCond(p, second, link, lo, hi).value, packet, PrimMeaning(p, second, link, packet))
  {
    var num := PortProtoNum(p.proto, p.at).value;
    var s4, s6 := Port4Within(link, p.dir, lo, hi, packet), Port6Within(link, p.dir, lo, hi, packet);
    var v4 := if second.Some? then s4.OrElse(Port4Within(link, second.value, lo, hi, packet)) else s4;
    var v6 := if second.Some? then s6.OrElse(Port6Within(link, second.value, lo, hi, packet)) else s6;
    Port4CondDecides(link, num, p.dir, second, lo, hi, p.at, packet);
    Port6CondDecides(link, num, p.dir, second, lo, hi, p.at, packet);
    EitherDecides(Port4Cond(link, num, p.dir, second, lo, hi, p.at), Port6Cond(link, num, p.dir, second, lo, hi, p.at),
                  packet,
                  Port4Gate(link, num, packet).AndThen(v4), Port6Gate(link, num, packet).AndThen(v6));
    PortPrimMeaning(p, second, num, lo, hi, link, packet);
  }

  // ----- expressions -----

  lemma PrimDecides(p: CompiledPrimitive, second: Option<DirTag>, link: LinkType, packet: Bytes)
    requires PrefixInRange(p.ty) && PrimCond(p, second, link).Ok?
    ensures Decides(PrimCond(p, second, link).value, packet, PrimMeaning(p, second, link, packet))
  {
    match p.ty
    case Host(addr) =>
      if addr.V4? {
        Addr4Decides(p, second, link, addr.v4, None, packet);
      } else {
        Addr6Decides(p, second, link, addr.v6, None, packet);
      }
    case Net(addr, prefix) =>
      var bits := Some(if prefix.Some? then prefix.value else FullPrefix(addr));
      if addr.V4? {
        Addr4Decides(p, second, link, addr.v4, bits, packet);
      } else {
        Addr6Decides(p, second, link, addr.v6, bits, packet);
      }
    case Port(port) =>
      PortDecides(p, second, link, port, port, packet);
    case PortRange(lo, hi) =>
      PortDecides(p, second, link, lo, hi, packet);
  }

  /** The shared prologue is an optimisation: on every packet, however short, the code of a
      source/destination pair settles what the plain `or` of its two leaves settles. */
  lemma SharedPrologueIsOr(p1: CompiledPrimitive, p2: CompiledPrimitive, link: LinkType, packet: Bytes)
    requires PrefixInRange(p1.ty) && DiffersOnlyInDir(p1, p2)
    requires PrimCond(p1, Some(p2.dir), link).Ok?
    ensures PrefixInRange(p2.ty) && PrimCond(p1, None, link).Ok? && PrimCond(p2, None, link).Ok?
    ensures var v := M.LeafMeaning(p1, link, packet).OrElse(M.LeafMeaning(p2, link, packet));
            && Decides(PrimCond(p1, Some(p2.dir), link).value, packet, v)
            && Decides(Either(PrimCond(p1, None, link).value, PrimCond(p2, None, link).value), packet, v)
  {
    LeafFacing(p1, p2, link, packet);
    PrimDecides(p1, Some(p2.dir), link, packet);
    PrimDecides(p1, None, link, packet);
    PrimDecides(p2, None, link, packet);
    EitherDecides(PrimCond(p1, None, link).value, PrimCond(p2, None, link).value, packet,
                  M.LeafMeaning(p1, link, packet), M.LeafMeaning(p2, link, packet));
  }

  /** Meaning and compilability do not depend on where in the source text a leaf stands. */
  lemma LeafFacing(p1: CompiledPrimitive, p2: CompiledPrimitive, link: LinkType, packet: Bytes)
    requires PrefixInRange(p1.ty) && DiffersOnlyInDir(p1, p2)
    ensures M.LeafMeaning(Facing(p1, p2.dir), link, packet) == M.LeafMeaning(p2, link, packet)
    ensures PrimCond(p1, Some(p2.dir), link).Ok? ==> PrimCond(p1, None, link).Ok? && PrimCond(p2, None, link).Ok?
  {
  }

  lemma {:induction false} ExprDecides(e: ExpandedExpr, link: LinkType, packet: Bytes)
    requires InRange(e) && CondOf(e, link).Ok?
    ensures Decides(CondOf(e, link).value, packet, M.ExprMeaning(e, link, packet))
    decreases e
  {
    match e
    case Leaf(p) =>
      PrimDecides(p, None, link, packet);
    case EtherLeaf(ether) =>
      EtherDecides(ether, link, packet);
    case Not(inner) =>
      ExprDecides(inner, link, packet);
      NegateDecides(CondOf(inner, link).value, packet, M.ExprMeaning(inner, link, packet));
    case And(l, r) =>
      ExprDecides(l, link, packet);
      ExprDecides(r, link, packet);
      BothDecides(CondOf(l, link).value, CondOf(r, link).value, packet, M.ExprMeaning(l, link, packet),
                  M.ExprMeaning(r, link, packet));
    case Or(l, r) =>
      if IsDirPair(l, r) {
        assert InRange(l);
        SharedPrologueIsOr(l.prim, r.prim, link, packet);
      } else {
        ExprDecides(l, link, packet);
        ExprDecides(r, link, packet);
        EitherDecides(CondOf(l, link).value, CondOf(r, link).value, packet, M.ExprMeaning(l, link, packet),
                      M.ExprMeaning(r, link, packet));
      }
  }
}
