/** How many instructions an expression compiles to, and when that many can always be assembled. */
module CodeSize {
  import opened Words
  import opened Errors
  import opened Ast
  import opened LinkType
  import opened Irep
  import opened Backpatch
  import opened Simulation
  import opened Decision
  import opened Filters
  import opened Labels
  import opened Codegen
  import opened PrefixProofs
  import LeafProofs
  import opened Compiler
  import M = Meaning

  // ----- the size of a decision's code -----

  function Cost(c: Cond): nat {
    match c
    case Test(pre, _, _, _) => |pre| + 1
    case Always(_) => 1
    case Negate(inner) => Cost(inner)
    case Both(l, r) => Cost(l) + Cost(r)
    case Either(l, r) => Cost(l) + Cost(r)
  }

  lemma {:induction false} RealsConcat(s: seq<IrOp>, t: seq<IrOp>)
    ensures Reals(s + t) == Reals(s) + Reals(t)
  {
    if t == [] {
      assert s + t == s;
    } else {
      assert (s + t)[..|s + t| - 1] == s + t[..|t| - 1];
      RealsConcat(s, t[..|t| - 1]);
    }
  }

  lemma {:induction false} RealsOfReals(s: seq<IrOp>)
    requires forall i :: 0 <= i < |s| ==> s[i].Real?
    ensures |Reals(s)| == |s|
  {
    if s != [] {
      RealsOfReals(s[..|s| - 1]);
    }
  }

  lemma {:induction false} LowerCost(c: Cond, n: nat, t: Label, f: Label)
    ensures |Reals(Lower(c, n, t, f).ops)| == Cost(c)
    decreases c
  {
    match c
    case Test(pre, cmp, imm, at) =>
      RealsOfReals(Lower(c, n, t, f).ops);
    case Always(at) =>
      RealsOfReals(Lower(c, n, t, f).ops);
    case Negate(inner) =>
      LowerCost(inner, n, f, t);
    case Both(l, r) =>
      var first := Lower(l, n + 1, Label(n), f);
      LowerCost(l, n + 1, Label(n), f);
      LowerCost(r, first.next, t, f);
      RealsMarked(first.ops, Label(n), Lower(r, first.next, t, f).ops);
    case Either(l, r) =>
      var first := Lower(l, n + 1, t, Label(n));
      LowerCost(l, n + 1, t, Label(n));
      LowerCost(r, first.next, t, f);
      RealsMarked(first.ops, Label(n), Lower(r, first.next, t, f).ops);
  }

  lemma RealsMarked(s: seq<IrOp>, l: Label, t: seq<IrOp>)
    ensures |Reals(s + [Mark(l)] + t)| == |Reals(s)| + |Reals(t)|
  {
    RealsConcat(s, [Mark(l)]);
    RealsConcat(s + [Mark(l)], t);
    assert [Mark(l)][..0] == [];
  }

  // ----- the size of an expression -----

  function GateSize(link: LinkType): nat {
    if link.Raw? then 3 else 2
  }

  /** One direction of an address: an IPv4 word, masked unless whole, or the IPv6 words the prefix
      reaches, the last masked unless whole. */
  function AddressSize(ty: PrimType): nat
    requires (ty.Host? || ty.Net?) && PrefixInRange(ty)
  {
    var prefix := M.PrefixOf(ty);
    if ty.addr.V4? then (if prefix < 32 then 3 else 2)
    else if prefix == 0 then 1
    else 2 * ((prefix + 31) / 32) + (if prefix % 32 != 0 then 1 else 0)
  }

  /** One direction of a port: one comparison for a single port, two for a range. */
  function PortSize(ty: PrimType): nat
    requires ty.Port? || ty.PortRange?
  {
    if ty.Port? || ty.lo == ty.hi then 2 else 3
  }

  /** Something once, or for a source/destination pair twice. */
  function Each(pair: bool, one: nat): nat {
    if pair then one + one else one
  }

  /** A leaf, or a source/destination pair: its gates once, its comparison once for each direction. */
  function PrimSize(p: CompiledPrimitive, pair: bool, link: LinkType): nat
    requires PrefixInRange(p.ty)
  {
    if p.ty.Host? || p.ty.Net? then
      GateSize(link) + (if M.TransportOf(p.proto).Some? then 2 else 0) + Each(pair, AddressSize(p.ty))
    else (GateSize(link) + 5 + Each(pair, PortSize(p.ty))) + (GateSize(link) + 2 + Each(pair, PortSize(p.ty)))
  }

  function EtherSize(kind: EtherKind): nat {
    match kind
    case EtherHost(_, dir) => if dir.Some? then 4 else 8
    case EtherProto(_) => 2
    case Broadcast => 4
    case Multicast => 2
  }

  function ExprSize(e: ExpandedExpr, link: LinkType): nat
    requires InRange(e)
  {
    match e
    case Leaf(p) => PrimSize(p, false, link)
    case EtherLeaf(ether) => EtherSize(ether.kind)
    case Not(inner) => ExprSize(inner, link)
    case And(l, r) => ExprSize(l, link) + ExprSize(r, link)
    case Or(l, r) =>
      if IsDirPair(l, r) then
        assert InRange(l);
        PrimSize(l.prim, true, link)
      else ExprSize(l, link) + ExprSize(r, link)
  }

  lemma MaskSize(prefix: u8)
    requires prefix <= 32
    ensures |Masking(Netmask(prefix))| == if prefix < 32 then 1 else 0
  {
    if prefix < 32 {
      NetmaskIs(prefix);
      MulSwap(Pow2(prefix) - 1, Pow2(31 - prefix));
    } else {
      FullMask();
    }
  }

  lemma Addr4Cost(p: CompiledPrimitive, second: Option<DirTag>, link: LinkType, addr: u32, prefix: Option<u8>)
    requires prefix.Some? ==> prefix.value <= 32
    requires (p.ty.Host? || p.ty.Net?) && p.ty.addr == V4(addr) && PrefixInRange(p.ty)
    requires M.PrefixOf(p.ty) == if prefix.Some? then prefix.value else 32
    requires Addr4Cond(p, second, link, addr, prefix).Ok?
    ensures Cost(Addr4Cond(p, second, link, addr, prefix).value) == PrimSize(p, second.Some?, link)
  {
    if prefix.Some? {
      MaskSize(prefix.value);
    }
    var gates := AddrGatesOf(p.proto, p.at).value;
    var mask := if prefix.Some? then Some(Netmask(prefix.value)) else None;
    var target := if mask.Some? then BitAnd(addr, mask.value) else addr;
    var c1 := AddrTest(link, Step(gates, p.dir), mask, target, p.at);
    var c2 := if second.Some? then Some(AddrTest(link, Step(gates, second.value), mask, target, p.at)) else None;
    assert Cost(c1) == AddressSize(p.ty);
    assert c2.Some? ==> Cost(c2.value) == AddressSize(p.ty);
    GatesCost(link, gates.ethertype, IP_PROTO_OFFSET, gates.ipProto, p.at, InTurn(c1, c2));
  }

  lemma GatesCost(link: LinkType, ethertype: u32, field: u8, num: Option<u32>, at: Span, body: Cond)
    ensures Cost(Guarded(Gates(link, ethertype, field, num, at), body)) ==
            GateSize(link) + (if num.Some? then 2 else 0) + Cost(body)
  {
    var l3 := L3Gate(link, ethertype, at);
    if num.Some? {
      var byte := ByteGate(link, field, num.value, at);
      assert [l3, byte][1..] == [byte] && [byte][1..] == [];
      assert Guarded([byte], body) == Both(byte, body);
      assert Cost(Both(byte, body)) == 2 + Cost(body);
    } else {
      assert [l3][1..] == [];
    }
  }

  lemma {:induction false} Addr6FromCost(link: LinkType, step: u8, addr: u128, prefix: nat, i: nat, at: Span)
    requires 32 * i < prefix <= 128
    ensures Cost(Addr6From(link, step, addr, prefix, i, at)) ==
            2 * (WordsOf(prefix) - i) + (if prefix % 32 != 0 then 1 else 0)
    decreases prefix - 32 * i
  {
    Addr6WordCost(link, step, addr, prefix, i, at);
    if i != WordsOf(prefix) - 1 {
      Addr6FromCost(link, step, addr, prefix, i + 1, at);
    }
  }

  lemma Addr6WordCost(link: LinkType, step: u8, addr: u128, prefix: nat, i: nat, at: Span)
    requires 32 * i < prefix <= 128
    ensures Cost(Addr6WordTest(link, step, addr, prefix, i, at)) ==
            if i == WordsOf(prefix) - 1 && prefix % 32 != 0 then 3 else 2
  {
    LastWord(prefix, i);
    MaskSize(if prefix - 32 * i < 32 then prefix - 32 * i else 32);
    assert |Masking(WordMask(prefix, i))| == if prefix - 32 * i < 32 then 1 else 0;
  }

  /** Only the last word a prefix reaches can be reached in part. */
  lemma LastWord(prefix: nat, i: nat)
    requires 32 * i < prefix <= 128
    ensures prefix - 32 * i < 32 <==> i == WordsOf(prefix) - 1 && prefix % 32 != 0
  {
    var q, r := prefix / 32, prefix % 32;
    assert prefix == 32 * q + r;
    assert WordsOf(prefix) == if r == 0 then q else q + 1;
  }

  lemma Addr6Cost(p: CompiledPrimitive, second: Option<DirTag>, link: LinkType, addr: u128, prefix: Option<u8>)
    requires prefix.Some? ==> prefix.value <= 128
    requires (p.ty.Host? || p.ty.Net?) && p.ty.addr == V6(addr) && PrefixInRange(p.ty)
    requires M.PrefixOf(p.ty) == if prefix.Some? then prefix.value else 128
    requires Addr6Cond(p, second, link, addr, prefix).Ok?
    ensures Cost(Addr6Cond(p, second, link, addr, prefix).value) == PrimSize(p, second.Some?, link)
  {
    var bits := M.PrefixOf(p.ty);
    var c1 := Addr6Test(link, Step(IP6_GATES, p.dir), addr, bits, p.at);
    var c2 := if second.Some? then Some(Addr6Test(link, Step(IP6_GATES, second.value), addr, bits, p.at)) else None;
    if bits > 0 {
      Addr6FromCost(link, Step(IP6_GATES, p.dir), addr, bits, 0, p.at);
      if second.Some? {
        Addr6FromCost(link, Step(IP6_GATES, second.value), addr, bits, 0, p.at);
      }
    }
    GatesCost(link, ETH_TYPE_IPV6, IP6_NEXTHDR_OFFSET, None, p.at, InTurn(c1, c2));
  }

  lemma PortCompareCost(pre: seq<IrOp2>, lo: u16, hi: u16, at: Span)
    ensures Cost(PortCompare(pre, lo, hi, at)) == |pre| + (if lo == hi then 1 else 2)
  {
    assert Cost(Negate(Test([], Gt, hi, at))) == Cost(Test([], Gt, hi, at)) == 1;
  }

  lemma MacTestCost(field: u8, mac: MacAddr, at: Span)
    ensures Cost(MacTest(field, mac, at)) == 4
  {
    assert Cost(Test([LdwAbs(field)], Eq, MacHigh(mac), at)) == 2;
  }

  lemma EtherCost(e: EtherPrimitive, link: LinkType)
    requires EtherCond(e, link).Ok?
    ensures Cost(EtherCond(e, link).value) == EtherSize(e.kind)
  {
    match e.kind
    case EtherHost(mac, _) =>
      MacTestCost(ETH_SRC_MAC_OFFSET, mac, e.at);
      MacTestCost(ETH_DST_MAC_OFFSET, mac, e.at);
    case EtherProto(_) =>
    case Broadcast => MacTestCost(ETH_DST_MAC_OFFSET, ETH_MAC_BROADCAST, e.at);
    case Multicast =>
  }

  lemma PortsCost(p: CompiledPrimitive, second: Option<DirTag>, link: LinkType, lo: u16, hi: u16)
    requires (p.ty == Port(lo) && lo == hi) || p.ty == PortRange(lo, hi)
    requires PortCond(p, second, link, lo, hi).Ok?
    ensures Cost(PortCond(p, second, link, lo, hi).value) == PrimSize(p, second.Some?, link)
  {
    var num := PortProtoNum(p.proto, p.at).value;
    Port4Cost(link, num, p.dir, second, lo, hi, p.at);
    var c1 := PortCompare([Port6Load(link, p.dir)], lo, hi, p.at);
    var c2 := if second.Some? then Some(PortCompare([Port6Load(link, second.value)], lo, hi, p.at)) else None;
    PortCompareCost([Port6Load(link, p.dir)], lo, hi, p.at);
    if second.Some? {
      PortCompareCost([Port6Load(link, second.value)], lo, hi, p.at);
    }
    GatesCost(link, ETH_TYPE_IPV6, IP6_NEXTHDR_OFFSET, Some(num), p.at, InTurn(c1, c2));
  }

  lemma Port4Cost(link: LinkType, num: u32, dir: DirTag, second: Option<DirTag>, lo: u16, hi: u16, at: Span)
    ensures Cost(Port4Cond(link, num, dir, second, lo, hi, at)) ==
            GateSize(link) + 5 + Each(second.Some?, if lo == hi then 2 else 3)
  {
    var body := InTurn(PortCompare([LdxMsh(L3Info(link).ipBase), Port4Load(link, dir)], lo, hi, at),
                       if second.Some? then Some(PortCompare([Port4Load(link, second.value)], lo, hi, at)) else None);
    var fragment := NotFragmentGate(link, at);
    PortCompareCost([LdxMsh(L3Info(link).ipBase), Port4Load(link, dir)], lo, hi, at);
    if second.Some? {
      PortCompareCost([Port4Load(link, second.value)], lo, hi, at);
    }
    assert Cost(fragment) == 2;
    LeafProofs.GuardedLast(Gates(link, ETH_TYPE_IP, IP_PROTO_OFFSET, Some(num), at), fragment, body);
    GatesCost(link, ETH_TYPE_IP, IP_PROTO_OFFSET, Some(num), at, Both(fragment, body));
  }

  lemma PrimCost(p: CompiledPrimitive, second: Option<DirTag>, link: LinkType)
    requires PrefixInRange(p.ty) && PrimCond(p, second, link).Ok?
    ensures Cost(PrimCond(p, second, link).value) == PrimSize(p, second.Some?, link)
  {
    match p.ty
    case Host(addr) =>
      if addr.V4? { Addr4Cost(p, second, link, addr.v4, None); } else { Addr6Cost(p, second, link, addr.v6, None); }
    case Net(addr, prefix) =>
      var bits := Some(if prefix.Some? then prefix.value else FullPrefix(addr));
      if addr.V4? { Addr4Cost(p, second, link, addr.v4, bits); } else { Addr6Cost(p, second, link, addr.v6, bits); }
    case Port(port) => PortsCost(p, second, link, port, port);
    case PortRange(lo, hi) => PortsCost(p, second, link, lo, hi);
  }

  lemma {:induction false} ExprCost(e: ExpandedExpr, link: LinkType)
    requires InRange(e) && CondOf(e, link).Ok?
    ensures Cost(CondOf(e, link).value) == ExprSize(e, link)
    decreases e
  {
    match e
    case Leaf(p) => PrimCost(p, None, link);
    case EtherLeaf(ether) => EtherCost(ether, link);
    case Not(inner) => ExprCost(inner, link);
    case And(l, r) => ExprCost(l, link); ExprCost(r, link);
    case Or(l, r) =>
      if IsDirPair(l, r) {
        assert InRange(l);
        PrimCost(l.prim, Some(r.prim.dir), link);
      } else {
        ExprCost(l, link);
        ExprCost(r, link);
      }
  }

  /** The compiled program has exactly as many instructions as its expression's size, plus the two
      returns. */
  lemma ExactCodeSize(e: ExpandedExpr, link: LinkType, snaplen: u32)
    requires InRange(e) && FitsAssembler(e, link) && Generated(e, link, snaplen).Ok?
    ensures |Reals(Generated(e, link, snaplen).value.stream)| == ExprSize(e, link) + 2
    ensures CompiledExpr(e, link, snaplen).Ok? ==> |CompiledExpr(e, link, snaplen).value| == ExprSize(e, link) + 2
  {
    var c := CondOf(e, link).value;
    ExprCost(e, link);
    LowerCost(c, 2, Label(0), Label(1));
    RealsConcat(Lower(c, 2, Label(0), Label(1)).ops, Returns(snaplen));
    ReturnsCost(snaplen);
  }

  lemma ReturnsCost(snaplen: u32)
    ensures |Reals(Returns(snaplen))| == 2
  {
    var s := Returns(snaplen);
    assert s[..3][..2] == s[..2] && s[..2][..1] == s[..1] && s[..1][..0] == [];
    assert Reals(s[..1]) == [] && |Reals(s[..2])| == 1 && |Reals(s[..3])| == 1;
  }

  /** An expression without an invalid leaf and of size at most 255 always compiles, whatever its
      nesting. */
  lemma SmallExpressionsCompile(e: ExpandedExpr, link: LinkType, snaplen: u32)
    requires InRange(e) && FitsAssembler(e, link) && Generated(e, link, snaplen).Ok?
    requires ExprSize(e, link) <= 255
    ensures CompiledExpr(e, link, snaplen).Ok?
  {
    ExactCodeSize(e, link, snaplen);
    GeneratedIsWellPlaced(e, link, snaplen);
    SmallProgramsAssemble(Generated(e, link, snaplen).value);
  }

  lemma {:induction false} StreamLength(c: Cond, n: nat, t: Label, f: Label)
    ensures |Lower(c, n, t, f).ops| < 2 * Cost(c)
    decreases c
  {
    match c
    case Test(pre, cmp, imm, at) =>
    case Always(at) =>
    case Negate(inner) =>
      StreamLength(inner, n, f, t);
    case Both(l, r) =>
      StreamLength(l, n + 1, Label(n), f);
      StreamLength(r, Lower(l, n + 1, Label(n), f).next, t, f);
    case Either(l, r) =>
      StreamLength(l, n + 1, t, Label(n));
      StreamLength(r, Lower(l, n + 1, t, Label(n)).next, t, f);
  }

  /** The assembler's 32-bit counts suffice for every expression of size below 2^31 - 2. */
  lemma FitsBySize(e: ExpandedExpr, link: LinkType)
    requires InRange(e) && ExprSize(e, link) < 0x7fff_fffe
    ensures FitsAssembler(e, link)
  {
    if CondOf(e, link).Ok? {
      ExprCost(e, link);
      StreamLength(CondOf(e, link).value, 2, Label(0), Label(1));
    }
  }

  /** An `or` of two leaves takes one prologue if they differ in nothing but the direction, and otherwise two. */
  lemma OrOfLeaves(p1: CompiledPrimitive, p2: CompiledPrimitive, link: LinkType)
    requires PrefixInRange(p1.ty) && PrefixInRange(p2.ty)
    ensures InRange(Or(Leaf(p1), Leaf(p2)))
    ensures ExprSize(Or(Leaf(p1), Leaf(p2)), link) ==
            if p1.proto == p2.proto && p1.ty == p2.ty && p1.dir != p2.dir then PrimSize(p1, true, link)
            else PrimSize(p1, false, link) + PrimSize(p2, false, link)
  {
    assert InRange(Leaf(p1)) && InRange(Leaf(p2));
  }
}
