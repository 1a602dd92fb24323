/** Two bytes more of framing: the Linux cooked program is the Ethernet program with every packet offset
    moved by two. */
module Layout {
  import opened Words
  import opened Errors
  import opened Ast
  import opened LinkType
  import Insn
  import opened Irep
  import opened Backpatch
  import opened Decision
  import opened Filters
  import opened Labels
  import opened Compiler
  import M = Meaning

  predicate NoEther(e: ExpandedExpr) {
    match e
    case Leaf(_) => true
    case EtherLeaf(_) => false
    case Not(inner) => NoEther(inner)
    case And(l, r) => NoEther(l) && NoEther(r)
    case Or(l, r) => NoEther(l) && NoEther(r)
  }

  // ----- meaning -----

  /** The packet without its first two bytes. */
  function Dropped(packet: Bytes): Bytes {
    if |packet| < 2 then [] else packet[2..]
  }

  lemma FieldMoves(packet: Bytes, o: nat, n: nat)
    requires n > 0
    ensures M.Field(packet, o + 2, n) == M.Field(Dropped(packet), o, n)
  {
    if o + 2 + n <= |packet| {
      assert packet[o + 2..o + 2 + n] == packet[2..][o..o + n];
    }
  }

  lemma InNetwork6Moves(packet: Bytes, o: nat, words: nat, addr: nat, prefix: nat)
    requires prefix <= 32 * words
    ensures M.InNetwork6(packet, o + 2, words, addr, prefix) == M.InNetwork6(Dropped(packet), o, words, addr, prefix)
  {
    if o + 2 <= |packet| {
      assert packet[o + 2..] == packet[2..][o..];
    }
  }

  lemma GatesMove(family: M.Family, num: nat, packet: Bytes)
    ensures M.Carries(LinuxSll, family, packet) == M.Carries(Ethernet, family, Dropped(packet))
    ensures M.ProtocolIs(LinuxSll, family, num, packet) == M.ProtocolIs(Ethernet, family, num, Dropped(packet))
  {
    FieldMoves(packet, 12, 2);
    FieldMoves(packet, 14 + (if family == M.IPv6 then 6 else 9), 1);
  }

  lemma Port6Moves(num: nat, dir: DirTag, lo: nat, hi: nat, packet: Bytes)
    ensures M.Port6Meaning(LinuxSll, num, dir, lo, hi, packet) ==
            M.Port6Meaning(Ethernet, num, dir, lo, hi, Dropped(packet))
  {
    GatesMove(M.IPv6, num, packet);
    FieldMoves(packet, 54 + M.PortAt(dir), 2);
  }

  lemma Port4Moves(num: nat, dir: DirTag, lo: nat, hi: nat, packet: Bytes)
    ensures M.Port4Meaning(LinuxSll, num, dir, lo, hi, packet) ==
            M.Port4Meaning(Ethernet, num, dir, lo, hi, Dropped(packet))
  {
    GatesMove(M.IPv4, num, packet);
    FieldMoves(packet, 20, 2);
    FieldMoves(packet, 14, 1);
    var ihl := M.Below(M.Field(packet, 16, 1), 4);
    if ihl.Some? {
      FieldMoves(packet, 14 + 4 * ihl.value + M.PortAt(dir), 2);
    }
  }

  lemma LeafMoves(p: CompiledPrimitive, packet: Bytes)
    requires PrefixInRange(p.ty)
    ensures M.LeafMeaning(p, LinuxSll, packet) == M.LeafMeaning(p, Ethernet, Dropped(packet))
  {
    var num := M.TransportOf(p.proto);
    var n := if num.Some? then num.value else 0;
    match p.ty
    case Port(port) =>
      Port4Moves(n, p.dir, port, port, packet);
      Port6Moves(n, p.dir, port, port, packet);
    case PortRange(lo, hi) =>
      Port4Moves(n, p.dir, lo, hi, packet);
      Port6Moves(n, p.dir, lo, hi, packet);
    case _ =>
      var family := M.FamilyOf(p.proto);
      var o := 14 + M.AddressAt(family, p.dir);
      GatesMove(family, n, packet);
      FieldMoves(packet, o, 4);
      if p.ty.addr.V6? {
        InNetwork6Moves(packet, o, 4, p.ty.addr.v6, M.PrefixOf(p.ty));
      }
  }

  lemma {:induction false} MeaningMoves(e: ExpandedExpr, packet: Bytes)
    requires InRange(e) && NoEther(e)
    ensures M.ExprMeaning(e, LinuxSll, packet) == M.ExprMeaning(e, Ethernet, Dropped(packet))
    decreases e
  {
    match e
    case Leaf(p) => LeafMoves(p, packet);
    case EtherLeaf(_) =>
    case Not(inner) => MeaningMoves(inner, packet);
    case And(l, r) => MeaningMoves(l, packet); MeaningMoves(r, packet);
    case Or(l, r) => MeaningMoves(l, packet); MeaningMoves(r, packet);
  }

  // ----- code -----

  /** The same instruction, a load looking two bytes further. */
  function Moved(op: IrOp2): IrOp2
    requires IsLoad(op) ==> op.k + 2 < 0x1_0000_0000
  {
    if IsLoad(op) then op.(k := op.k + 2) else op
  }

  predicate IsLoad(op: IrOp2) {
    op.LdhAbs? || op.LdbAbs? || op.LdwAbs? || op.LdxMsh? || op.LdhInd?
  }

  predicate IsMoved(op: IrOp2, op': IrOp2) {
    (IsLoad(op) ==> op.k + 2 < 0x1_0000_0000) && op' == Moved(op)
  }

  predicate CondMoved(c: Cond, c': Cond) {
    match c
    case Test(pre, cmp, imm, at) =>
      c'.Test? && c'.cmp == cmp && c'.imm == imm && c'.at == at && |c'.pre| == |pre| && Straight(pre) &&
      forall i :: 0 <= i < |pre| ==> IsMoved(pre[i], c'.pre[i])
    case Always(at) => c' == c
    case Negate(inner) => c'.Negate? && CondMoved(inner, c'.inner)
    case Both(l, r) => c'.Both? && CondMoved(l, c'.left) && CondMoved(r, c'.right)
    case Either(l, r) => c'.Either? && CondMoved(l, c'.left) && CondMoved(r, c'.right)
  }

  predicate StreamMoved(s: seq<IrOp>, s': seq<IrOp>) {
    |s| == |s'| && forall i :: 0 <= i < |s| ==> OpMoved(s[i], s'[i])
  }

  predicate OpMoved(o: IrOp, o': IrOp) {
    if o.Mark? then o' == o else o'.Real? && o'.insn.at == o.insn.at && IsMoved(o.insn.op, o'.insn.op)
  }

  lemma {:induction false} GuardedMoved(gates: seq<Cond>, gates': seq<Cond>, body: Cond, body': Cond)
    requires |gates| == |gates'| && forall i :: 0 <= i < |gates| ==> CondMoved(gates[i], gates'[i])
    requires CondMoved(body, body')
    ensures CondMoved(Guarded(gates, body), Guarded(gates', body'))
  {
    if gates != [] {
      GuardedMoved(gates[1..], gates'[1..], body, body');
    }
  }

  lemma GatesMoved(ethertype: u32, field: u8, num: Option<u32>, at: Span, body: Cond, body': Cond)
    requires CondMoved(body, body')
    ensures CondMoved(Guarded(Gates(Ethernet, ethertype, field, num, at), body),
                      Guarded(Gates(LinuxSll, ethertype, field, num, at), body'))
  {
    GuardedMoved(Gates(Ethernet, ethertype, field, num, at), Gates(LinuxSll, ethertype, field, num, at), body, body');
  }

  lemma AddrTestMoved(step: u8, mask: Option<u32>, target: u32, at: Span)
    ensures CondMoved(AddrTest(Ethernet, step, mask, target, at), AddrTest(LinuxSll, step, mask, target, at))
  {
  }

  lemma {:induction false} Addr6FromMoved(step: u8, addr: u128, prefix: nat, i: nat, at: Span)
    requires 32 * i < prefix <= 128
    ensures CondMoved(Addr6From(Ethernet, step, addr, prefix, i, at), Addr6From(LinuxSll, step, addr, prefix, i, at))
    decreases prefix - 32 * i
  {
    Addr6WordMoved(step, addr, prefix, i, at);
    if i != WordsOf(prefix) - 1 {
      Addr6FromMoved(step, addr, prefix, i + 1, at);
    }
  }

  lemma Addr6WordMoved(step: u8, addr: u128, prefix: nat, i: nat, at: Span)
    requires 32 * i < prefix <= 128
    ensures CondMoved(Addr6WordTest(Ethernet, step, addr, prefix, i, at),
                      Addr6WordTest(LinuxSll, step, addr, prefix, i, at))
  {
  }

  lemma Addr4CondMoved(p: CompiledPrimitive, second: Option<DirTag>, addr: u32, prefix: Option<u8>)
    requires prefix.Some? ==> prefix.value <= 32
    ensures ResultMoved(Addr4Cond(p, second, Ethernet, addr, prefix), Addr4Cond(p, second, LinuxSll, addr, prefix))
  {
    var gates := AddrGatesOf(p.proto, p.at);
    if gates.Ok? {
      var mask := if prefix.Some? then Some(Netmask(prefix.value)) else None;
      var target := if mask.Some? then BitAnd(addr, mask.value) else addr;
      var dir2 := if second.Some? then second.value else p.dir;
      AddrTestMoved(Step(gates.value, p.dir), mask, target, p.at);
      AddrTestMoved(Step(gates.value, dir2), mask, target, p.at);
      var c1, c1' := AddrTest(Ethernet, Step(gates.value, p.dir), mask, target, p.at),
                     AddrTest(LinuxSll, Step(gates.value, p.dir), mask, target, p.at);
      var c2, c2' := AddrTest(Ethernet, Step(gates.value, dir2), mask, target, p.at),
                     AddrTest(LinuxSll, Step(gates.value, dir2), mask, target, p.at);
      GatesMoved(gates.value.ethertype, IP_PROTO_OFFSET, gates.value.ipProto, p.at,
                 InTurn(c1, if second.Some? then Some(c2) else None),
                 InTurn(c1', if second.Some? then Some(c2') else None));
    }
  }

  lemma Addr6CondMoved(p: CompiledPrimitive, second: Option<DirTag>, addr: u128, prefix: Option<u8>)
    requires prefix.Some? ==> prefix.value <= 128
    ensures ResultMoved(Addr6Cond(p, second, Ethernet, addr, prefix), Addr6Cond(p, second, LinuxSll, addr, prefix))
  {
    var bits := if prefix.Some? then prefix.value else 128;
    var dir2 := if second.Some? then second.value else p.dir;
    if bits > 0 {
      Addr6FromMoved(Step(IP6_GATES, p.dir), addr, bits, 0, p.at);
      Addr6FromMoved(Step(IP6_GATES, dir2), addr, bits, 0, p.at);
    }
    var c1, c1' := Addr6Test(Ethernet, Step(IP6_GATES, p.dir), addr, bits, p.at),
                   Addr6Test(LinuxSll, Step(IP6_GATES, p.dir), addr, bits, p.at);
    var c2, c2' := Addr6Test(Ethernet, Step(IP6_GATES, dir2), addr, bits, p.at),
                   Addr6Test(LinuxSll, Step(IP6_GATES, dir2), addr, bits, p.at);
    GatesMoved(ETH_TYPE_IPV6, IP6_NEXTHDR_OFFSET, None, p.at,
               InTurn(c1, if second.Some? then Some(c2) else None),
               InTurn(c1', if second.Some? then Some(c2') else None));
  }

  lemma PortCompareMoved(pre: seq<IrOp2>, pre': seq<IrOp2>, lo: u16, hi: u16, at: Span)
    requires |pre| == |pre'| && Straight(pre) && forall i :: 0 <= i < |pre| ==> IsMoved(pre[i], pre'[i])
    ensures CondMoved(PortCompare(pre, lo, hi, at), PortCompare(pre', lo, hi, at))
  {
  }

  lemma Port4CondMoved(num: u32, dir: DirTag, second: Option<DirTag>, lo: u16, hi: u16, at: Span)
    ensures CondMoved(Port4Cond(Ethernet, num, dir, second, lo, hi, at),
                      Port4Cond(LinuxSll, num, dir, second, lo, hi, at))
  {
    var gs, gs' := Gates(Ethernet, ETH_TYPE_IP, IP_PROTO_OFFSET, Some(num), at),
                   Gates(LinuxSll, ETH_TYPE_IP, IP_PROTO_OFFSET, Some(num), at);
    Ports4Moved(dir, second, lo, hi, at);
    GuardedMoved(gs + [NotFragmentGate(Ethernet, at)], gs' + [NotFragmentGate(LinuxSll, at)],
                 InTurn(PortCompare([LdxMsh(14), Port4Load(Ethernet, dir)], lo, hi, at),
                        if second.Some? then Some(PortCompare([Port4Load(Ethernet, second.value)], lo, hi, at))
                        else None),
                 InTurn(PortCompare([LdxMsh(16), Port4Load(LinuxSll, dir)], lo, hi, at),
                        if second.Some? then Some(PortCompare([Port4Load(LinuxSll, second.value)], lo, hi, at))
                        else None));
  }

  lemma Ports4Moved(dir: DirTag, second: Option<DirTag>, lo: u16, hi: u16, at: Span)
    ensures CondMoved(InTurn(PortCompare([LdxMsh(14), Port4Load(Ethernet, dir)], lo, hi, at),
                             if second.Some? then Some(PortCompare([Port4Load(Ethernet, second.value)], lo, hi, at))
                             else None),
                      InTurn(PortCompare([LdxMsh(16), Port4Load(LinuxSll, dir)], lo, hi, at),
                             if second.Some? then Some(PortCompare([Port4Load(LinuxSll, second.value)], lo, hi, at))
                             else None))
  {
    PortCompareMoved([LdxMsh(14), Port4Load(Ethernet, dir)], [LdxMsh(16), Port4Load(LinuxSll, dir)], lo, hi, at);
    if second.Some? {
      PortCompareMoved([Port4Load(Ethernet, second.value)], [Port4Load(LinuxSll, second.value)], lo, hi, at);
    }
  }

  lemma Port6CondMoved(num: u32, dir: DirTag, second: Option<DirTag>, lo: u16, hi: u16, at: Span)
    ensures CondMoved(Port6Cond(Ethernet, num, dir, second, lo, hi, at),
                      Port6Cond(LinuxSll, num, dir, second, lo, hi, at))
  {
    var dir2 := if second.Some? then second.value else dir;
    PortCompareMoved([Port6Load(Ethernet, dir)], [Port6Load(LinuxSll, dir)], lo, hi, at);
    PortCompareMoved([Port6Load(Ethernet, dir2)], [Port6Load(LinuxSll, dir2)], lo, hi, at);
    GatesMoved(ETH_TYPE_IPV6, IP6_NEXTHDR_OFFSET, Some(num), at,
               InTurn(PortCompare([Port6Load(Ethernet, dir)], lo, hi, at),
                      if second.Some? then Some(PortCompare([Port6Load(Ethernet, dir2)], lo, hi, at)) else None),
               InTurn(PortCompare([Port6Load(LinuxSll, dir)], lo, hi, at),
                      if second.Some? then Some(PortCompare([Port6Load(LinuxSll, dir2)], lo, hi, at)) else None));
  }

  /** Both fail with the same error, or both succeed with code that differs in load offsets only. */
  predicate ResultMoved(r: Result<Cond, CompileError>, r': Result<Cond, CompileError>) {
    if r.Ok? then r'.Ok? && CondMoved(r.value, r'.value) else r' == r
  }

  lemma PrimMoved(p: CompiledPrimitive, second: Option<DirTag>)
    requires PrefixInRange(p.ty)
    ensures ResultMoved(PrimCond(p, second, Ethernet), PrimCond(p, second, LinuxSll))
  {
    match p.ty
    case Host(addr) =>
      if addr.V4? { Addr4CondMoved(p, second, addr.v4, None); } else { Addr6CondMoved(p, second, addr.v6, None); }
    case Net(addr, prefix) =>
      var bits := Some(if prefix.Some? then prefix.value else FullPrefix(addr));
      if addr.V4? { Addr4CondMoved(p, second, addr.v4, bits); } else { Addr6CondMoved(p, second, addr.v6, bits); }
    case Port(port) =>
      PortCondMoved(p, second, port, port);
    case PortRange(lo, hi) =>
      PortCondMoved(p, second, lo, hi);
  }

  lemma PortCondMoved(p: CompiledPrimitive, second: Option<DirTag>, lo: u16, hi: u16)
    ensures ResultMoved(PortCond(p, second, Ethernet, lo, hi), PortCond(p, second, LinuxSll, lo, hi))
  {
    var num := PortProtoNum(p.proto, p.at);
    if num.Ok? {
      Port4CondMoved(num.value, p.dir, second, lo, hi, p.at);
      Port6CondMoved(num.value, p.dir, second, lo, hi, p.at);
    }
  }

  lemma {:induction false} ExprMoved(e: ExpandedExpr)
    requires InRange(e) && NoEther(e)
    ensures ResultMoved(CondOf(e, Ethernet), CondOf(e, LinuxSll))
    decreases e
  {
    match e
    case Leaf(p) => PrimMoved(p, None);
    case EtherLeaf(_) =>
    case Not(inner) => ExprMoved(inner);
    case And(l, r) => ExprMoved(l); ExprMoved(r);
    case Or(l, r) =>
      if IsDirPair(l, r) {
        assert InRange(l);
        PrimMoved(l.prim, Some(r.prim.dir));
      } else {
        ExprMoved(l);
        ExprMoved(r);
      }
  }

  // ----- from code to instructions -----

  lemma StreamsJoin(s1: seq<IrOp>, s1': seq<IrOp>, s2: seq<IrOp>, s2': seq<IrOp>)
    requires StreamMoved(s1, s1') && StreamMoved(s2, s2')
    ensures StreamMoved(s1 + s2, s1' + s2')
  {
  }

  lemma {:induction false} LowerMoved(c: Cond, c': Cond, n: nat, t: Label, f: Label)
    requires CondMoved(c, c')
    ensures StreamMoved(Lower(c, n, t, f).ops, Lower(c', n, t, f).ops)
    ensures Lower(c, n, t, f).next == Lower(c', n, t, f).next
    decreases c
  {
    match c
    case Test(pre, cmp, imm, at) =>
    case Always(at) =>
    case Negate(inner) =>
      LowerMoved(inner, c'.inner, n, f, t);
    case Both(l, r) =>
      var first := Lower(l, n + 1, Label(n), f);
      LowerMoved(l, c'.left, n + 1, Label(n), f);
      LowerMoved(r, c'.right, first.next, t, f);
      MarkedMoved(first.ops, Lower(c'.left, n + 1, Label(n), f).ops, Label(n), Lower(r, first.next, t, f).ops,
                  Lower(c'.right, first.next, t, f).ops);
    case Either(l, r) =>
      var first := Lower(l, n + 1, t, Label(n));
      LowerMoved(l, c'.left, n + 1, t, Label(n));
      LowerMoved(r, c'.right, first.next, t, f);
      MarkedMoved(first.ops, Lower(c'.left, n + 1, t, Label(n)).ops, Label(n), Lower(r, first.next, t, f).ops,
                  Lower(c'.right, first.next, t, f).ops);
  }

  lemma MarkedMoved(s1: seq<IrOp>, s1': seq<IrOp>, l: Label, s2: seq<IrOp>, s2': seq<IrOp>)
    requires StreamMoved(s1, s1') && StreamMoved(s2, s2')
    ensures StreamMoved(s1 + [Mark(l)] + s2, s1' + [Mark(l)] + s2')
  {
    StreamsJoin(s1, s1', [Mark(l)], [Mark(l)]);
    StreamsJoin(s1 + [Mark(l)], s1' + [Mark(l)], s2, s2');
  }

  lemma {:induction false} RealsMoved(s: seq<IrOp>, s': seq<IrOp>)
    requires StreamMoved(s, s')
    ensures |Reals(s)| == |Reals(s')|
    ensures forall i :: 0 <= i < |Reals(s)| ==> OpMoved(Real(Reals(s)[i]), Real(Reals(s')[i]))
    ensures forall l :: OffsetOf(s, l) == OffsetOf(s', l)
  {
    if s != [] {
      RealsMoved(s[..|s| - 1], s'[..|s| - 1]);
      assert OpMoved(s[|s| - 1], s'[|s| - 1]);
    }
  }

  /** The same machine instruction, a load looking two bytes further. */
  predicate InsnMoved(i: Insn.Insn, i': Insn.Insn) {
    var op := Insn.Decode(i);
    if op.LdhAbs? || op.LdbAbs? || op.LdwAbs? || op.LdxMsh? || op.LdhInd? then
      i.k + 2 < 0x1_0000_0000 && i' == i.(k := i.k + 2)
    else i' == i
  }

  /** The two programs have the same labels at the same offsets, and the same instructions but for what
      their loads look at. */
  ghost predicate ProgramMoved(p: IrProgram, p': IrProgram)
    requires Fits(p) && Fits(p')
  {
    && |Reals(p.stream)| == |Reals(p'.stream)|
    && (forall i :: 0 <= i < |Reals(p.stream)| ==> OpMoved(Real(Reals(p.stream)[i]), Real(Reals(p'.stream)[i])))
    && Offsets(p) == Offsets(p')
  }

  lemma StreamMovedProgram(p: IrProgram, p': IrProgram)
    requires Fits(p) && Fits(p') && StreamMoved(p.stream, p'.stream) && p.numLabels == p'.numLabels
    ensures ProgramMoved(p, p')
  {
    RealsMoved(p.stream, p'.stream);
    assert Offsets(p) == Offsets(p');
  }

  predicate InsnsMoved(s: seq<Insn.Insn>, s': seq<Insn.Insn>) {
    |s| == |s'| && forall i :: 0 <= i < |s| ==> InsnMoved(s[i], s'[i])
  }

  /** Both have failed with the same error, or both have yielded moved instructions. */
  predicate OutputMoved(r: Result<seq<Insn.Insn>, CompileError>, r': Result<seq<Insn.Insn>, CompileError>) {
    if r.Ok? then r'.Ok? && InsnsMoved(r.value, r'.value) else r' == r
  }

  lemma {:induction false} LoweredMoved(p: IrProgram, p': IrProgram, n: nat)
    requires Resolvable(p) && Resolvable(p') && ProgramMoved(p, p') && n <= |Reals(p.stream)|
    ensures OutputMoved(LoweredUpTo(p, n), LoweredUpTo(p', n))
  {
    if n != 0 {
      LoweredMoved(p, p', n - 1);
      OneMoreMoved(p, p', n - 1);
    }
  }

  lemma OneMoreMoved(p: IrProgram, p': IrProgram, i: nat)
    requires Resolvable(p) && Resolvable(p') && ProgramMoved(p, p') && i < |Reals(p.stream)|
    requires OutputMoved(LoweredUpTo(p, i), LoweredUpTo(p', i))
    ensures OutputMoved(LoweredUpTo(p, i + 1), LoweredUpTo(p', i + 1))
  {
    var insn, insn' := StepsMoved(p, p', i);
    ExtendedMoved(LoweredUpTo(p, i), LoweredUpTo(p', i), insn, insn');
  }

  lemma StepsMoved(p: IrProgram, p': IrProgram, i: nat)
    returns (insn: Result<Insn.Insn, CompileError>, insn': Result<Insn.Insn, CompileError>)
    requires Resolvable(p) && Resolvable(p') && ProgramMoved(p, p') && i < |Reals(p.stream)|
    ensures LoweredUpTo(p, i + 1) == Extended(LoweredUpTo(p, i), insn)
    ensures LoweredUpTo(p', i + 1) == Extended(LoweredUpTo(p', i), insn')
    ensures StepMoved(insn, insn')
  {
    insn := LoweredStep(p, i);
    insn' := LoweredStep(p', i);
    LowerOneMoved(p, p', i);
  }

  /** One more instruction behind those before it, unless there has been an error. */
  function Extended(before: Result<seq<Insn.Insn>, CompileError>, insn: Result<Insn.Insn, CompileError>)
    : Result<seq<Insn.Insn>, CompileError>
  {
    if before.Err? then before
    else if insn.Err? then Err(insn.error)
    else Ok(before.value + [insn.value])
  }

  /** One instruction likewise. */
  predicate StepMoved(r: Result<Insn.Insn, CompileError>, r': Result<Insn.Insn, CompileError>) {
    if r.Ok? then r'.Ok? && InsnMoved(r.value, r'.value) else r' == r
  }

  lemma LoweredStep(p: IrProgram, i: nat) returns (insn: Result<Insn.Insn, CompileError>)
    requires Resolvable(p) && i < |Reals(p.stream)|
    ensures insn == LowerInsn(i, Reals(p.stream)[i], Offsets(p))
    ensures LoweredUpTo(p, i + 1) == Extended(LoweredUpTo(p, i), insn)
  {
    insn := LowerInsn(i, Reals(p.stream)[i], Offsets(p));
  }

  lemma ExtendedMoved(before: Result<seq<Insn.Insn>, CompileError>, before': Result<seq<Insn.Insn>, CompileError>,
                      insn: Result<Insn.Insn, CompileError>, insn': Result<Insn.Insn, CompileError>)
    requires OutputMoved(before, before')
    requires StepMoved(insn, insn')
    ensures OutputMoved(Extended(before, insn), Extended(before', insn'))
  {
  }

  lemma LowerOneMoved(p: IrProgram, p': IrProgram, i: nat)
    requires Resolvable(p) && Resolvable(p') && ProgramMoved(p, p') && i < |Reals(p.stream)|
    ensures var r := LowerInsn(i, Reals(p.stream)[i], Offsets(p));
            var r' := LowerInsn(i, Reals(p'.stream)[i], Offsets(p'));
            StepMoved(r, r')
  {
    LowerInsnMoved(i, Reals(p.stream)[i], Reals(p'.stream)[i], Offsets(p));
  }

  lemma LowerInsnMoved(i: nat, insn: IrInsn, insn': IrInsn, offsets: seq<Option<u32>>)
    requires OpMoved(Real(insn), Real(insn'))
    requires forall l :: l in Targets(insn.op) ==> Ahead(i, l, offsets)
    ensures Targets(insn.op) == Targets(insn'.op)
    ensures StepMoved(LowerInsn(i, insn, offsets), LowerInsn(i, insn', offsets))
  {
  }

  /** For an expression with no link-layer leaf, Ethernet and Linux cooked capture fail together with the
      same error, or both compile, to the same instructions with every load two bytes further on. */
  lemma CookedProgramIsEthernetMoved(e: ExpandedExpr, snaplen: u32)
    requires InRange(e) && NoEther(e) && FitsAssembler(e, Ethernet) && FitsAssembler(e, LinuxSll)
    ensures var r, r' := CompiledExpr(e, Ethernet, snaplen), CompiledExpr(e, LinuxSll, snaplen);
            if r.Err? then r' == r else r'.Ok? && InsnsMoved(r.value, r'.value)
  {
    ExprMoved(e);
    var c, c' := CondOf(e, Ethernet), CondOf(e, LinuxSll);
    if c.Ok? {
      GeneratedIsWellPlaced(e, Ethernet, snaplen);
      GeneratedIsWellPlaced(e, LinuxSll, snaplen);
      WrappedMoved(c.value, c'.value, snaplen);
    }
  }

  lemma WrappedMoved(c: Cond, c': Cond, snaplen: u32)
    requires CondMoved(c, c') && Resolvable(Wrapped(c, snaplen)) && Resolvable(Wrapped(c', snaplen))
    ensures var r, r' := Assembled(Wrapped(c, snaplen)), Assembled(Wrapped(c', snaplen));
            if r.Err? then r' == r else r'.Ok? && InsnsMoved(r.value, r'.value)
  {
    LowerMoved(c, c', 2, Label(0), Label(1));
    var p, p' := Wrapped(c, snaplen), Wrapped(c', snaplen);
    StreamsJoin(Lower(c, 2, Label(0), Label(1)).ops, Lower(c', 2, Label(0), Label(1)).ops, Returns(snaplen),
                Returns(snaplen));
    StreamMovedProgram(p, p');
    LoweredMoved(p, p', |Reals(p.stream)|);
  }

  /** And on every packet the cooked program ends as the Ethernet program ends on the packet without its
      first two bytes. */
  lemma CookedRunsLikeEthernet(e: ExpandedExpr, snaplen: u32, packet: Bytes)
    requires InRange(e) && NoEther(e) && FitsAssembler(e, Ethernet) && FitsAssembler(e, LinuxSll)
    requires CompiledExpr(e, Ethernet, snaplen).Ok?
    ensures CompiledExpr(e, LinuxSll, snaplen).Ok?
    ensures Ending(CompiledExpr(e, LinuxSll, snaplen).value, packet) ==
            Ending(CompiledExpr(e, Ethernet, snaplen).value, Dropped(packet))
  {
    CookedProgramIsEthernetMoved(e, snaplen);
    SemanticPreservation(e, LinuxSll, snaplen, packet);
    SemanticPreservation(e, Ethernet, snaplen, Dropped(packet));
    MeaningMoves(e, packet);
  }
}
