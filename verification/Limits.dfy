/** How far the conditional jumps of an expression reach, in terms of the expression alone: the exact limit
    on what compiles. */
module Limits {
  import opened Words
  import opened Errors
  import opened Ast
  import opened LinkType
  import opened Vm
  import opened Irep
  import opened Decision
  import opened Filters
  import opened Codegen
  import Insn
  import LeafProofs
  import opened Backpatch
  import opened Simulation
  import opened Compiler
  import opened CodeSize
  import opened Reach
  import M = Meaning

  // ----- the reach of an expression -----

  /** The last comparison of an IPv6 network of prefix length zero is no test. */
  predicate Untested(ty: PrimType) {
    ty.Net? && ty.addr.V6? && ty.prefix == Some(0)
  }

  /** The longest conditional jump of a leaf or of a source/destination pair. For an address it is the one of its first
      gate, or the one that ends its first direction. For a port there are the first gates of both attempts,
      and the jump that ends the first direction of the IPv4 attempt. */
  function PrimReach(p: CompiledPrimitive, pair: bool, link: LinkType, toTrue: nat, toFalse: nat): nat
    requires PrefixInRange(p.ty)
  {
    if p.ty.Host? || p.ty.Net? then
      Max(PrimSize(p, pair, link) - GateSize(link) + toFalse,
          if Untested(p.ty) then 0 else (if pair then AddressSize(p.ty) else 0) + toTrue)
    else
      var attempt6 := 2 + Each(pair, PortSize(p.ty));
      Max(5 + Each(pair, PortSize(p.ty)),
          Max((if pair then PortSize(p.ty) else 0) + GateSize(link) + attempt6 + toTrue, attempt6 + toFalse))
  }

  function EtherReach(kind: EtherKind, toTrue: nat, toFalse: nat): nat {
    match kind
    case EtherHost(_, Some(_)) => Max(2 + toFalse, toTrue)
    case EtherHost(_, None) => Max(2 + toFalse, 4 + toTrue)
    case Broadcast => Max(2 + toFalse, toTrue)
    case _ => Max(toTrue, toFalse)
  }

  /** The longest conditional jump of an expression whose exits lie this many instructions behind its code. */
  function ExprReach(e: ExpandedExpr, link: LinkType, toTrue: nat, toFalse: nat): nat
    requires InRange(e)
  {
    match e
    case Leaf(p) => PrimReach(p, false, link, toTrue, toFalse)
    case EtherLeaf(ether) => EtherReach(ether.kind, toTrue, toFalse)
    case Not(inner) => ExprReach(inner, link, toFalse, toTrue)
    case And(l, r) => Max(ExprReach(l, link, 0, ExprSize(r, link) + toFalse), ExprReach(r, link, toTrue, toFalse))
    case Or(l, r) =>
      if IsDirPair(l, r) then
        assert InRange(l);
        PrimReach(l.prim, true, link, toTrue, toFalse)
      else Max(ExprReach(l, link, ExprSize(r, link) + toTrue, 0), ExprReach(r, link, toTrue, toFalse))
  }

  // ----- it is the reach of the code -----

  /** A comparison: its last jump leads to both exits, and no jump of it passes its end but to them. */
  ghost predicate Comparison(c: Cond) {
    forall t: nat, f: nat :: t <= LongestJump(c, t, f) <= Max(t, Cost(c) + f)
  }

  lemma PortCompareCompares(pre: seq<IrOp2>, lo: u16, hi: u16, at: Span)
    ensures Comparison(PortCompare(pre, lo, hi, at))
  {
    if lo != hi {
      var upper := Test([], Gt, hi, at);
      var lower := Test(pre, Ge, lo, at);
      assert Cost(Negate(upper)) == 1;
      forall t: nat, f: nat
        ensures t <= LongestJump(PortCompare(pre, lo, hi, at), t, f) <= Max(t, Cost(PortCompare(pre, lo, hi, at)) + f)
      {
        assert LongestJump(Negate(upper), t, f) == LongestJump(upper, f, t) == Max(f, t);
        assert LongestJump(lower, 0, 1 + f) == 1 + f;
      }
    }
  }

  lemma {:induction false} Addr6Compares(link: LinkType, step: u8, addr: u128, prefix: nat, i: nat, at: Span)
    requires 32 * i < prefix <= 128
    ensures Comparison(Addr6From(link, step, addr, prefix, i, at))
    decreases prefix - 32 * i
  {
    var word := Addr6WordTest(link, step, addr, prefix, i, at);
    if i != WordsOf(prefix) - 1 {
      Addr6Compares(link, step, addr, prefix, i + 1, at);
      BothCompares(word, Addr6From(link, step, addr, prefix, i + 1, at));
    }
  }

  lemma BothCompares(word: Cond, rest: Cond)
    requires word.Test? && Comparison(rest)
    ensures Comparison(Both(word, rest))
  {
    forall t: nat, f: nat ensures t <= LongestJump(Both(word, rest), t, f) <= Max(t, Cost(Both(word, rest)) + f) {
      assert LongestJump(word, 0, Cost(rest) + f) == Cost(rest) + f;
      assert t <= LongestJump(rest, t, f) <= Max(t, Cost(rest) + f);
    }
  }

  /** One comparison, or two in turn, reach to the true exit from the end of the first. */
  lemma InTurnReach(c1: Cond, c2: Option<Cond>, toTrue: nat, toFalse: nat)
    requires Comparison(c1) && (c2.Some? ==> Comparison(c2.value))
    ensures var first := (if c2.Some? then Cost(c2.value) else 0) + toTrue;
            first <= LongestJump(InTurn(c1, c2), toTrue, toFalse) <= Max(first, Cost(InTurn(c1, c2)) + toFalse)
  {
    if c2.Some? {
      assert LongestJump(c1, Cost(c2.value) + toTrue, 0) >= Cost(c2.value) + toTrue;
      assert LongestJump(c2.value, toTrue, toFalse) >= toTrue;
    }
  }

  lemma GateFirst(gate: Cond, rest: Cond, toTrue: nat, toFalse: nat)
    requires gate.Test?
    ensures LongestJump(Both(gate, rest), toTrue, toFalse) ==
            Max(Cost(rest) + toFalse, LongestJump(rest, toTrue, toFalse))
  {
  }

  /** The longest jump of gates is the one that ends the first of them. */
  lemma GatesReach(link: LinkType, ethertype: u32, field: u8, num: Option<u32>, at: Span, body: Cond, toTrue: nat,
        toFalse: nat)
    ensures LongestJump(Guarded(Gates(link, ethertype, field, num, at), body), toTrue, toFalse) ==
            Max((if num.Some? then 2 else 0) + Cost(body) + toFalse, LongestJump(body, toTrue, toFalse))
  {
    var l3 := L3Gate(link, ethertype, at);
    if num.Some? {
      var byte := ByteGate(link, field, num.value, at);
      GuardedPair(l3, byte, body);
      GateFirst(l3, Both(byte, body), toTrue, toFalse);
      GateFirst(byte, body, toTrue, toFalse);
      ByteGateCost(link, field, num.value, at, body);
    } else {
      assert [l3][1..] == [] && Guarded([l3], body) == Both(l3, body);
      GateFirst(l3, body, toTrue, toFalse);
    }
  }

  lemma GuardedPair(gate1: Cond, gate2: Cond, body: Cond)
    ensures Guarded([gate1, gate2], body) == Both(gate1, Both(gate2, body))
  {
    assert [gate1, gate2][1..] == [gate2] && [gate2][1..] == [];
    assert Guarded([gate2], body) == Both(gate2, body);
  }

  lemma ByteGateCost(link: LinkType, field: u8, value: u32, at: Span, body: Cond)
    ensures Cost(Both(ByteGate(link, field, value, at), body)) == 2 + Cost(body)
  {
  }

  /** Gates, and behind them one comparison of `one` instructions or two in turn. */
  lemma GatedReach(link: LinkType, ethertype: u32, field: u8, num: Option<u32>, at: Span, c1: Cond, c2: Option<Cond>,
        one: nat, toTrue: nat, toFalse: nat)
    requires Comparison(c1) && Cost(c1) == one && (c2.Some? ==> Comparison(c2.value) && Cost(c2.value) == one)
    ensures LongestJump(Guarded(Gates(link, ethertype, field, num, at), InTurn(c1, c2)), toTrue, toFalse) ==
            Max((if num.Some? then 2 else 0) + Each(c2.Some?, one) + toFalse, (if c2.Some? then one else 0) + toTrue)
  {
    InTurnReach(c1, c2, toTrue, toFalse);
    GatesReach(link, ethertype, field, num, at, InTurn(c1, c2), toTrue, toFalse);
  }

  lemma Addr4Reach(p: CompiledPrimitive, second: Option<DirTag>, link: LinkType, addr: u32, prefix: Option<u8>,
        toTrue: nat, toFalse: nat)
    requires prefix.Some? ==> prefix.value <= 32
    requires (p.ty.Host? || p.ty.Net?) && p.ty.addr == V4(addr) && PrefixInRange(p.ty)
    requires M.PrefixOf(p.ty) == if prefix.Some? then prefix.value else 32
    requires Addr4Cond(p, second, link, addr, prefix).Ok?
    ensures LongestJump(Addr4Cond(p, second, link, addr, prefix).value, toTrue, toFalse) ==
            PrimReach(p, second.Some?, link, toTrue, toFalse)
  {
    var gates := AddrGatesOf(p.proto, p.at).value;
    var mask := if prefix.Some? then Some(Netmask(prefix.value)) else None;
    var target := if mask.Some? then BitAnd(addr, mask.value) else addr;
    var c1 := AddrTest(link, Step(gates, p.dir), mask, target, p.at);
    var c2 := if second.Some? then Some(AddrTest(link, Step(gates, second.value), mask, target, p.at)) else None;
    Addr4TestCost(p, Step(gates, p.dir), link, addr, prefix);
    if second.Some? {
      Addr4TestCost(p, Step(gates, second.value), link, addr, prefix);
    }
    GatedReach(link, gates.ethertype, IP_PROTO_OFFSET, gates.ipProto, p.at, c1, c2, AddressSize(p.ty), toTrue, toFalse);
    assert gates.ipProto.Some? <==> M.TransportOf(p.proto).Some?;
    Addr4Number(p, second.Some?, link, toTrue, toFalse);
  }

  lemma Addr4Number(p: CompiledPrimitive, pair: bool, link: LinkType, toTrue: nat, toFalse: nat)
    requires (p.ty.Host? || p.ty.Net?) && p.ty.addr.V4? && PrefixInRange(p.ty)
    ensures PrimReach(p, pair, link, toTrue, toFalse) ==
            Max((if M.TransportOf(p.proto).Some? then 2 else 0) + Each(pair, AddressSize(p.ty)) + toFalse,
                (if pair then AddressSize(p.ty) else 0) + toTrue)
  {
  }

  lemma Addr4TestCost(p: CompiledPrimitive, step: u8, link: LinkType, addr: u32, prefix: Option<u8>)
    requires prefix.Some? ==> prefix.value <= 32
    requires (p.ty.Host? || p.ty.Net?) && p.ty.addr == V4(addr) && PrefixInRange(p.ty)
    requires M.PrefixOf(p.ty) == if prefix.Some? then prefix.value else 32
    ensures var mask := if prefix.Some? then Some(Netmask(prefix.value)) else None;
            var target := if mask.Some? then BitAnd(addr, mask.value) else addr;
            Cost(AddrTest(link, step, mask, target, p.at)) == AddressSize(p.ty)
  {
    if prefix.Some? {
      MaskSize(prefix.value);
    }
  }

  lemma Addr6Reach(p: CompiledPrimitive, second: Option<DirTag>, link: LinkType, addr: u128, prefix: Option<u8>,
        toTrue: nat, toFalse: nat)
    requires prefix.Some? ==> prefix.value <= 128
    requires (p.ty.Host? || p.ty.Net?) && p.ty.addr == V6(addr) && PrefixInRange(p.ty)
    requires M.PrefixOf(p.ty) == if prefix.Some? then prefix.value else 128
    requires Addr6Cond(p, second, link, addr, prefix).Ok?
    ensures LongestJump(Addr6Cond(p, second, link, addr, prefix).value, toTrue, toFalse) ==
            PrimReach(p, second.Some?, link, toTrue, toFalse)
  {
    var bits := M.PrefixOf(p.ty);
    var dir2 := if second.Some? then second.value else p.dir;
    var c1 := Addr6Test(link, Step(IP6_GATES, p.dir), addr, bits, p.at);
    var c2 := if second.Some? then Some(Addr6Test(link, Step(IP6_GATES, dir2), addr, bits, p.at)) else None;
    Addr6TestCost(p, Step(IP6_GATES, p.dir), link, addr);
    Addr6TestCost(p, Step(IP6_GATES, dir2), link, addr);
    if bits > 0 {
      Addr6Compares(link, Step(IP6_GATES, p.dir), addr, bits, 0, p.at);
      Addr6Compares(link, Step(IP6_GATES, dir2), addr, bits, 0, p.at);
      GatedReach(link, ETH_TYPE_IPV6, IP6_NEXTHDR_OFFSET, None, p.at, c1, c2, AddressSize(p.ty), toTrue, toFalse);
    } else {
      GatesReach(link, ETH_TYPE_IPV6, IP6_NEXTHDR_OFFSET, None, p.at, InTurn(c1, c2), toTrue, toFalse);
    }
  }

  lemma Addr6TestCost(p: CompiledPrimitive, step: u8, link: LinkType, addr: u128)
    requires (p.ty.Host? || p.ty.Net?) && p.ty.addr == V6(addr) && PrefixInRange(p.ty)
    ensures Cost(Addr6Test(link, step, addr, M.PrefixOf(p.ty), p.at)) == AddressSize(p.ty)
    ensures M.PrefixOf(p.ty) == 0 <==> Untested(p.ty)
  {
    if M.PrefixOf(p.ty) > 0 {
      Addr6FromCost(link, step, addr, M.PrefixOf(p.ty), 0, p.at);
    }
  }

  lemma Port4Reach(link: LinkType, num: u32, dir: DirTag, second: Option<DirTag>, lo: u16, hi: u16, at: Span,
        toTrue: nat, toFalse: nat)
    ensures var one := if lo == hi then 2 else 3;
            LongestJump(Port4Cond(link, num, dir, second, lo, hi, at), toTrue, toFalse) ==
            Max(5 + Each(second.Some?, one) + toFalse, (if second.Some? then one else 0) + toTrue)
  {
    var body := Port4Body(link, dir, second, lo, hi, at);
    var fragment := NotFragmentGate(link, at);
    Port4BodyReach(link, dir, second, lo, hi, at, toTrue, toFalse);
    FragmentReaches(link, at, body, toTrue, toFalse);
    LeafProofs.GuardedLast(Gates(link, ETH_TYPE_IP, IP_PROTO_OFFSET, Some(num), at), fragment, body);
    GatesReach(link, ETH_TYPE_IP, IP_PROTO_OFFSET, Some(num), at, Both(fragment, body), toTrue, toFalse);
  }

  /** The comparisons behind the IPv4 gates. */
  function Port4Body(link: LinkType, dir: DirTag, second: Option<DirTag>, lo: u16, hi: u16, at: Span): Cond {
    InTurn(PortCompare([LdxMsh(L3Info(link).ipBase), Port4Load(link, dir)], lo, hi, at),
           if second.Some? then Some(PortCompare([Port4Load(link, second.value)], lo, hi, at)) else None)
  }

  lemma Port4BodyReach(link: LinkType, dir: DirTag, second: Option<DirTag>, lo: u16, hi: u16, at: Span, toTrue: nat,
        toFalse: nat)
    ensures var one := if lo == hi then 2 else 3;
            var body := Port4Body(link, dir, second, lo, hi, at);
            var first := (if second.Some? then one else 0) + toTrue;
            Cost(body) == 1 + Each(second.Some?, one) &&
            first <= LongestJump(body, toTrue, toFalse) <= Max(first, Cost(body) + toFalse)
  {
    var dir2 := if second.Some? then second.value else dir;
    var pre1, pre2 := [LdxMsh(L3Info(link).ipBase), Port4Load(link, dir)], [Port4Load(link, dir2)];
    PortCompareCompares(pre1, lo, hi, at);
    PortCompareCompares(pre2, lo, hi, at);
    PortCompareCost(pre1, lo, hi, at);
    PortCompareCost(pre2, lo, hi, at);
    InTurnReach(PortCompare(pre1, lo, hi, at), if second.Some? then Some(PortCompare(pre2, lo, hi, at)) else None,
                toTrue, toFalse);
  }

  lemma FragmentReaches(link: LinkType, at: Span, body: Cond, toTrue: nat, toFalse: nat)
    ensures LongestJump(Both(NotFragmentGate(link, at), body), toTrue, toFalse) ==
            Max(Cost(body) + toFalse, LongestJump(body, toTrue, toFalse))
    ensures Cost(Both(NotFragmentGate(link, at), body)) == 2 + Cost(body)
  {
    var gate := NotFragmentGate(link, at);
    var test := Test([LdhAbs(L3Info(link).ipBase + IP_FLAGS_FRAG_OFFSET)], Set, FRAG_MASK, at);
    assert gate == Negate(test) && Cost(test) == 2;
    assert LongestJump(test, Cost(body) + toFalse, 0) == Cost(body) + toFalse;
    assert Cost(gate) == 2 && LongestJump(gate, 0, Cost(body) + toFalse) == Cost(body) + toFalse;
  }

  lemma Port6Reach(link: LinkType, num: u32, dir: DirTag, second: Option<DirTag>, lo: u16, hi: u16, at: Span,
        toTrue: nat, toFalse: nat)
    ensures var one := if lo == hi then 2 else 3;
            && Cost(Port6Cond(link, num, dir, second, lo, hi, at)) == GateSize(link) + 2 + Each(second.Some?, one)
            && LongestJump(Port6Cond(link, num, dir, second, lo, hi, at), toTrue, toFalse) ==
               Max(2 + Each(second.Some?, one) + toFalse, (if second.Some? then one else 0) + toTrue)
  {
    var dir2 := if second.Some? then second.value else dir;
    var c1, c2 := PortCompare([Port6Load(link, dir)], lo, hi, at), PortCompare([Port6Load(link, dir2)], lo, hi, at);
    var body := InTurn(c1, if second.Some? then Some(c2) else None);
    PortCompareCompares([Port6Load(link, dir)], lo, hi, at);
    PortCompareCompares([Port6Load(link, dir2)], lo, hi, at);
    PortCompareCost([Port6Load(link, dir)], lo, hi, at);
    PortCompareCost([Port6Load(link, dir2)], lo, hi, at);
    InTurnReach(c1, if second.Some? then Some(c2) else None, toTrue, toFalse);
    GatesReach(link, ETH_TYPE_IPV6, IP6_NEXTHDR_OFFSET, Some(num), at, body, toTrue, toFalse);
    GatesCost(link, ETH_TYPE_IPV6, IP6_NEXTHDR_OFFSET, Some(num), at, body);
  }

  lemma PortReach(p: CompiledPrimitive, second: Option<DirTag>, link: LinkType, lo: u16, hi: u16, toTrue: nat,
        toFalse: nat)
    requires (p.ty == Port(lo) && lo == hi) || p.ty == PortRange(lo, hi)
    requires PortCond(p, second, link, lo, hi).Ok?
    ensures LongestJump(PortCond(p, second, link, lo, hi).value, toTrue, toFalse) ==
            PrimReach(p, second.Some?, link, toTrue, toFalse)
  {
    var num := PortProtoNum(p.proto, p.at).value;
    var c6 := Port6Cond(link, num, p.dir, second, lo, hi, p.at);
    Port4Reach(link, num, p.dir, second, lo, hi, p.at, Cost(c6) + toTrue, 0);
    Port6Reach(link, num, p.dir, second, lo, hi, p.at, toTrue, toFalse);
  }

  lemma PrimReaches(p: CompiledPrimitive, second: Option<DirTag>, link: LinkType, toTrue: nat, toFalse: nat)
    requires PrefixInRange(p.ty) && PrimCond(p, second, link).Ok?
    ensures LongestJump(PrimCond(p, second, link).value, toTrue, toFalse) ==
            PrimReach(p, second.Some?, link, toTrue, toFalse)
  {
    match p.ty
    case Host(addr) =>
      if addr.V4? { Addr4Reach(p, second, link, addr.v4, None, toTrue, toFalse); }
      else { Addr6Reach(p, second, link, addr.v6, None, toTrue, toFalse); }
    case Net(addr, prefix) =>
      var bits := Some(if prefix.Some? then prefix.value else FullPrefix(addr));
      if addr.V4? { Addr4Reach(p, second, link, addr.v4, bits, toTrue, toFalse); }
      else { Addr6Reach(p, second, link, addr.v6, bits, toTrue, toFalse); }
    case Port(port) => PortReach(p, second, link, port, port, toTrue, toFalse);
    case PortRange(lo, hi) => PortReach(p, second, link, lo, hi, toTrue, toFalse);
  }

  lemma MacReach(field: u8, mac: MacAddr, at: Span, toTrue: nat, toFalse: nat)
    ensures LongestJump(MacTest(field, mac, at), toTrue, toFalse) == Max(2 + toFalse, toTrue)
    ensures Cost(MacTest(field, mac, at)) == 4
  {
    MacTestCost(field, mac, at);
    assert Cost(Test([LdhAbs(field + 4)], Eq, MacLow(mac), at)) == 2;
  }

  lemma EtherReaches(e: EtherPrimitive, link: LinkType, toTrue: nat, toFalse: nat)
    requires EtherCond(e, link).Ok?
    ensures LongestJump(EtherCond(e, link).value, toTrue, toFalse) == EtherReach(e.kind, toTrue, toFalse)
  {
    match e.kind
    case EtherHost(mac, Some(Src)) => MacReach(ETH_SRC_MAC_OFFSET, mac, e.at, toTrue, toFalse);
    case EtherHost(mac, Some(Dst)) => MacReach(ETH_DST_MAC_OFFSET, mac, e.at, toTrue, toFalse);
    case EtherHost(mac, None) =>
      MacReach(ETH_DST_MAC_OFFSET, mac, e.at, 4 + toTrue, 0);
      MacReach(ETH_SRC_MAC_OFFSET, mac, e.at, toTrue, toFalse);
    case Broadcast => MacReach(ETH_DST_MAC_OFFSET, ETH_MAC_BROADCAST, e.at, toTrue, toFalse);
    case _ =>
  }

  /** Wherever its exits lie, the reach of an expression is the longest conditional jump of its code. */
  ghost predicate Reaches(e: ExpandedExpr, link: LinkType)
    requires InRange(e) && CondOf(e, link).Ok?
  {
    forall t: nat, f: nat :: LongestJump(CondOf(e, link).value, t, f) == ExprReach(e, link, t, f)
  }

  lemma ReachesAt(e: ExpandedExpr, link: LinkType, t: nat, f: nat)
    requires InRange(e) && CondOf(e, link).Ok? && Reaches(e, link)
    ensures LongestJump(CondOf(e, link).value, t, f) == ExprReach(e, link, t, f)
  {
  }

  lemma AndReaches(e: ExpandedExpr, cl: Cond, cr: Cond, link: LinkType, t: nat, f: nat)
    requires InRange(e) && e.And? && Cost(cr) == ExprSize(e.right, link)
    requires LongestJump(cl, 0, Cost(cr) + f) == ExprReach(e.left, link, 0, Cost(cr) + f)
    requires LongestJump(cr, t, f) == ExprReach(e.right, link, t, f)
    ensures LongestJump(Both(cl, cr), t, f) == ExprReach(e, link, t, f)
  {
  }

  lemma OrReaches(e: ExpandedExpr, cl: Cond, cr: Cond, link: LinkType, t: nat, f: nat)
    requires InRange(e) && e.Or? && !IsDirPair(e.left, e.right) && Cost(cr) == ExprSize(e.right, link)
    requires LongestJump(cl, Cost(cr) + t, 0) == ExprReach(e.left, link, Cost(cr) + t, 0)
    requires LongestJump(cr, t, f) == ExprReach(e.right, link, t, f)
    ensures LongestJump(Either(cl, cr), t, f) == ExprReach(e, link, t, f)
  {
  }

  lemma BinaryReaches(e: ExpandedExpr, link: LinkType)
    requires InRange(e) && (e.And? || (e.Or? && !IsDirPair(e.left, e.right)))
    requires CondOf(e, link).Ok? && CondOf(e.left, link).Ok? && CondOf(e.right, link).Ok?
    requires Reaches(e.left, link) && Reaches(e.right, link)
    ensures Reaches(e, link)
  {
    BinaryErrors(e, link);
    ExprCost(e.right, link);
    var cl, cr := CondOf(e.left, link).value, CondOf(e.right, link).value;
    forall t: nat, f: nat ensures LongestJump(CondOf(e, link).value, t, f) == ExprReach(e, link, t, f) {
      ReachesAt(e.right, link, t, f);
      if e.And? {
        ReachesAt(e.left, link, 0, Cost(cr) + f);
        AndReaches(e, cl, cr, link, t, f);
      } else {
        ReachesAt(e.left, link, Cost(cr) + t, 0);
        OrReaches(e, cl, cr, link, t, f);
      }
    }
  }

  lemma LeafReaches(e: ExpandedExpr, link: LinkType)
    requires InRange(e) && (e.Leaf? || e.EtherLeaf? || (e.Or? && IsDirPair(e.left, e.right))) && CondOf(e, link).Ok?
    ensures Reaches(e, link)
  {
    forall t: nat, f: nat ensures LongestJump(CondOf(e, link).value, t, f) == ExprReach(e, link, t, f) {
      match e
      case Leaf(p) => PrimReaches(p, None, link, t, f);
      case EtherLeaf(ether) => EtherReaches(ether, link, t, f);
      case Or(l, r) =>
        assert InRange(l);
        PrimReaches(l.prim, Some(r.prim.dir), link, t, f);
    }
  }

  lemma NotReaches(e: ExpandedExpr, link: LinkType)
    requires InRange(e) && e.Not? && CondOf(e, link).Ok? && CondOf(e.inner, link).Ok? && Reaches(e.inner, link)
    ensures Reaches(e, link)
  {
    forall t: nat, f: nat ensures LongestJump(CondOf(e, link).value, t, f) == ExprReach(e, link, t, f) {
      assert LongestJump(CondOf(e.inner, link).value, f, t) == ExprReach(e.inner, link, f, t);
    }
  }

  lemma {:induction false} ExprReaches(e: ExpandedExpr, link: LinkType)
    requires InRange(e) && CondOf(e, link).Ok?
    ensures Reaches(e, link)
    decreases e
  {
    if e.Not? {
      ExprReaches(e.inner, link);
      NotReaches(e, link);
    } else if e.And? || (e.Or? && !IsDirPair(e.left, e.right)) {
      BinaryErrors(e, link);
      ExprReaches(e.left, link);
      ExprReaches(e.right, link);
      BinaryReaches(e, link);
    } else {
      LeafReaches(e, link);
    }
  }

  /** The first conditional jump longer than `bound` that an expression's program has. */
  function FirstJump(e: ExpandedExpr, link: LinkType, bound: nat): Option<Jump>
    requires InRange(e) && CondOf(e, link).Ok?
  {
    FirstLonger(CondOf(e, link).value, 0, 0, 1, bound)
  }

  /** The reach of an expression, its accepting return right behind its code and its rejecting one next, is the
      length of the longest conditional jump of what is generated: for every bound, some jump is longer if and
      only if it is, and the first such jump is the one computed from the expression. */
  lemma ReachIsLongest(e: ExpandedExpr, link: LinkType, snaplen: u32, bound: nat)
    requires InRange(e) && FitsAssembler(e, link) && CondOf(e, link).Ok?
    ensures Generated(e, link, snaplen).Ok? && Resolvable(Generated(e, link, snaplen).value)
    ensures var p := Generated(e, link, snaplen).value;
            && (AnyLonger(p, bound) <==> ExprReach(e, link, 0, 1) > bound)
            && (FirstJump(e, link, bound).Some? <==> ExprReach(e, link, 0, 1) > bound)
            && (FirstJump(e, link, bound).Some? ==> IsFirstLonger(p, FirstJump(e, link, bound).value, bound))
  {
    var c := CondOf(e, link).value;
    GeneratedIsWellPlaced(e, link, snaplen);
    LeafProofs.ExprDecides(e, link, []);
    ExprReaches(e, link);
    assert LongestJump(c, 0, 1) == ExprReach(e, link, 0, 1);
    LongestOfProgram(c, snaplen, bound);
    LongestIsLonger(c, 0, 0, 1, bound);
    FirstOfProgram(c, snaplen, bound);
  }

  /** So in the compiled program no displacement is greater, and some displacement is just that great. */
  lemma LongestDisplacement(e: ExpandedExpr, link: LinkType, snaplen: u32)
    requires InRange(e) && FitsAssembler(e, link) && CompiledExpr(e, link, snaplen).Ok?
    ensures var insns, reach := CompiledExpr(e, link, snaplen).value, ExprReach(e, link, 0, 1);
            && (forall i :: 0 <= i < |insns| && IsCondJump(Insn.Decode(insns[i])) ==>
                  insns[i].jt <= reach && insns[i].jf <= reach)
            && (reach > 0 ==>
                  exists i :: 0 <= i < |insns| && IsCondJump(Insn.Decode(insns[i])) &&
                              (insns[i].jt == reach || insns[i].jf == reach))
  {
    var reach := ExprReach(e, link, 0, 1);
    ReachIsLongest(e, link, snaplen, reach);
    if reach > 0 {
      ReachIsLongest(e, link, snaplen, reach - 1);
    }
    DisplacementsOf(Generated(e, link, snaplen).value, reach);
  }

  lemma DisplacementsOf(p: IrProgram, reach: nat)
    requires Resolvable(p) && Assembled(p).Ok?
    requires !AnyLonger(p, reach) && (reach > 0 ==> AnyLonger(p, reach - 1))
    ensures var insns := Assembled(p).value;
            && (forall i :: 0 <= i < |insns| && IsCondJump(Insn.Decode(insns[i])) ==>
                  insns[i].jt <= reach && insns[i].jf <= reach)
            && (reach > 0 ==>
                  exists i :: 0 <= i < |insns| && IsCondJump(Insn.Decode(insns[i])) &&
                              (insns[i].jt == reach || insns[i].jf == reach))
  {
    var insns := Assembled(p).value;
    forall i | 0 <= i < |insns|
      ensures IsCondJump(Insn.Decode(insns[i])) ==> insns[i].jt <= reach && insns[i].jf <= reach
    {
      JumpAssembled(p, i, reach);
    }
    if reach > 0 {
      var i :| 0 <= i < |Reals(p.stream)| && LongerThan(p, i, reach - 1);
      JumpAssembled(p, i, reach - 1);
    }
  }

  /** An assembled conditional jump has the displacements of the jump it comes from. */
  lemma JumpAssembled(p: IrProgram, i: nat, bound: nat)
    requires Resolvable(p) && Assembled(p).Ok? && i < |Reals(p.stream)|
    ensures var insn := Assembled(p).value[i];
            LongerThan(p, i, bound) <==> IsCondJump(Insn.Decode(insn)) && (insn.jt > bound || insn.jf > bound)
  {
    var op := Reals(p.stream)[i].op;
    LoweredAt(p, |Reals(p.stream)|, i);
    LoweredDecodes(i, Reals(p.stream)[i], Offsets(p));
    assert IsCond(op) ==> op.jt in Targets(op) && op.jf in Targets(op);
  }

  /** The exact limit: what the generator accepts is assembled if and only if no conditional jump of the
      expression, its accepting return right behind its code and its rejecting one next, reaches further
      than 255. */
  lemma CompilesWithinReach(e: ExpandedExpr, link: LinkType, snaplen: u32)
    requires InRange(e) && FitsAssembler(e, link) && CondOf(e, link).Ok?
    ensures CompiledExpr(e, link, snaplen).Ok? <==> ExprReach(e, link, 0, 1) <= 255
  {
    var c := CondOf(e, link).value;
    GeneratedIsWellPlaced(e, link, snaplen);
    LeafProofs.ExprDecides(e, link, []);
    ExprReaches(e, link);
    assert LongestJump(c, 0, 1) == ExprReach(e, link, 0, 1);
    AssemblesWithinReach(c, snaplen);
  }

  /** And otherwise the error reports the first jump longer than 255, with its index, its length and its place in
      the text, all computed from the expression. */
  lemma ReportsFirstJump(e: ExpandedExpr, link: LinkType, snaplen: u32)
    requires InRange(e) && FitsAssembler(e, link) && CondOf(e, link).Ok? && CompiledExpr(e, link, snaplen).Err?
    ensures FirstJump(e, link, 255).Some? &&
            Reports(CompiledExpr(e, link, snaplen).error, FirstJump(e, link, 255).value)
  {
    GeneratedIsWellPlaced(e, link, snaplen);
    LeafProofs.ExprDecides(e, link, []);
    OverflowReported(CondOf(e, link).value, snaplen);
  }
}
