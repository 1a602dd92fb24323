/** The code generator: methods that emit into the builder, each appending exactly the code of the
    decision it stands for. */
module Codegen {
  import opened Words
  import opened Errors
  import opened Ast
  import opened LinkType
  import opened Irep
  import opened Decision
  import opened Filters
  import opened Labels

  datatype Branch = Branch(onTrue: Label, onFalse: Label) {
    function Swapped(): Branch {
      Branch(onFalse, onTrue)
    }
  }

  /** The builder and the offsets of the link layer, passed through every emitting method. */
  datatype Ctx = Ctx(b: IrBuilder, ipBase: u32, ethField: Option<u32>, link: LinkType) {
    predicate Valid() {
      ipBase == L3Info(link).ipBase && ethField == L3Info(link).ethertypeOffset
    }
  }

  // ----- what emitting means -----

  /** From a builder holding `s` and `n`, the code of `c` has been appended. */
  ghost predicate Emitted(s: seq<IrOp>, n: nat, c: Cond, branch: Branch, b: IrBuilder)
    reads b
  {
    var code := Lower(c, n, branch.onTrue, branch.onFalse);
    b.stream == s + code.ops && b.numLabels == code.next
  }

  /** The code of gates, each falling through to the next and failing to `f`. */
  function GatesCode(gates: seq<Cond>, n: nat, f: Label): (code: Code)
    ensures code.next >= n
  {
    if gates == [] then Code([], n)
    else
      var first := Lower(gates[0], n + 1, Label(n), f);
      var others := GatesCode(gates[1..], first.next, f);
      Code(first.ops + [Mark(Label(n))] + others.ops, others.next)
  }

  ghost predicate GatesEmitted(s: seq<IrOp>, n: nat, gates: seq<Cond>, f: Label, b: IrBuilder)
    reads b
  {
    var code := GatesCode(gates, n, f);
    b.stream == s + code.ops && b.numLabels == code.next
  }

  lemma Regroup(s: seq<IrOp>, u: seq<IrOp>, v: seq<IrOp>)
    ensures (s + u) + v == s + (u + v)
  {
  }

  lemma {:induction false} LowerGuarded(gates: seq<Cond>, body: Cond, n: nat, t: Label, f: Label)
    ensures var before := GatesCode(gates, n, f);
            var after := Lower(body, before.next, t, f);
            Lower(Guarded(gates, body), n, t, f) == Code(before.ops + after.ops, after.next)
  {
    if gates == [] {
      assert [] + Lower(body, n, t, f).ops == Lower(body, n, t, f).ops;
    } else {
      var first := Lower(gates[0], n + 1, Label(n), f);
      LowerGuarded(gates[1..], body, first.next, t, f);
      var others := GatesCode(gates[1..], first.next, f);
      var after := Lower(body, others.next, t, f);
      Regroup(first.ops + [Mark(Label(n))], others.ops, after.ops);
    }
  }

  lemma {:induction false} GatesAppend(gates: seq<Cond>, more: seq<Cond>, n: nat, f: Label)
    ensures var before := GatesCode(gates, n, f);
            var after := GatesCode(more, before.next, f);
            GatesCode(gates + more, n, f) == Code(before.ops + after.ops, after.next)
  {
    if gates == [] {
      assert gates + more == more;
      assert [] + GatesCode(more, n, f).ops == GatesCode(more, n, f).ops;
    } else {
      var first := Lower(gates[0], n + 1, Label(n), f);
      GatesAppend(gates[1..], more, first.next, f);
      assert (gates + more)[0] == gates[0] && (gates + more)[1..] == gates[1..] + more;
      var others := GatesCode(gates[1..], first.next, f);
      var after := GatesCode(more, others.next, f);
      Regroup(first.ops + [Mark(Label(n))], others.ops, after.ops);
    }
  }

  lemma OneGate(gate: Cond, n: nat, f: Label)
    ensures var first := Lower(gate, n + 1, Label(n), f);
            GatesCode([gate], n, f) == Code(first.ops + [Mark(Label(n))], first.next)
  {
    assert [gate][1..] == [];
    var first := Lower(gate, n + 1, Label(n), f);
    assert first.ops + [Mark(Label(n))] + [] == first.ops + [Mark(Label(n))];
  }

  /** The code of a test whose loads are written out. */
  lemma TestOps(pre: seq<IrOp2>, cmp: Cmp, imm: u32, at: Span, n: nat, t: Label, f: Label)
    ensures |pre| == 0 ==> Lower(Test(pre, cmp, imm, at), n, t, f).ops == [Real(IrInsn(CondJump(cmp, imm, t, f), at))]
    ensures |pre| == 1 ==> Lower(Test(pre, cmp, imm, at), n, t, f).ops ==
                           [Real(IrInsn(pre[0], at)), Real(IrInsn(CondJump(cmp, imm, t, f), at))]
    ensures |pre| == 2 ==> Lower(Test(pre, cmp, imm, at), n, t, f).ops ==
                           [Real(IrInsn(pre[0], at)), Real(IrInsn(pre[1], at)),
                            Real(IrInsn(CondJump(cmp, imm, t, f), at))]
  {
  }

  // ----- gates -----

  method GateLdhEq(ctx: Ctx, jump: u32, imm: u32, at: Span, onFalse: Label)
    modifies ctx.b
    ensures GatesEmitted(old(ctx.b.stream), old(ctx.b.numLabels), [Test([LdhAbs(jump)], Eq, imm, at)], onFalse, ctx.b)
  {
    ghost var s, n := ctx.b.stream, ctx.b.numLabels;
    ctx.b.Emit(LdhAbs(jump), at);
    var cont := ctx.b.NewLabel();
    ctx.b.Emit(Jeq(imm, cont, onFalse), at);
    ctx.b.Place(cont);
    OneGate(Test([LdhAbs(jump)], Eq, imm, at), n, onFalse);
    TestOps([LdhAbs(jump)], Eq, imm, at, n + 1, cont, onFalse);
  }

  method GateLdbEq(ctx: Ctx, jump: u32, imm: u32, at: Span, onFalse: Label)
    modifies ctx.b
    ensures GatesEmitted(old(ctx.b.stream), old(ctx.b.numLabels), [Test([LdbAbs(jump)], Eq, imm, at)], onFalse, ctx.b)
  {
    ghost var s, n := ctx.b.stream, ctx.b.numLabels;
    ctx.b.Emit(LdbAbs(jump), at);
    var cont := ctx.b.NewLabel();
    ctx.b.Emit(Jeq(imm, cont, onFalse), at);
    ctx.b.Place(cont);
    OneGate(Test([LdbAbs(jump)], Eq, imm, at), n, onFalse);
    TestOps([LdbAbs(jump)], Eq, imm, at, n + 1, cont, onFalse);
  }

  method GateIpVersion(ctx: Ctx, versionNibble: u32, at: Span, onFalse: Label)
    modifies ctx.b
    ensures GatesEmitted(old(ctx.b.stream), old(ctx.b.numLabels),
                         [Test([LdbAbs(ctx.ipBase), AndK(0xf0)], Eq, versionNibble, at)], onFalse, ctx.b)
  {
    ghost var n := ctx.b.numLabels;
    ctx.b.Emit(LdbAbs(ctx.ipBase), at);
    ctx.b.Emit(AndK(0xf0), at);
    var cont := ctx.b.NewLabel();
    ctx.b.Emit(Jeq(versionNibble, cont, onFalse), at);
    ctx.b.Place(cont);
    OneGate(Test([LdbAbs(ctx.ipBase), AndK(0xf0)], Eq, versionNibble, at), n, onFalse);
    TestOps([LdbAbs(ctx.ipBase), AndK(0xf0)], Eq, versionNibble, at, n + 1, cont, onFalse);
  }

  /** Without an ethertype field only IPv4 and IPv6 can be told apart: the dead arm is never reached. */
  method EmitL3Gate(ctx: Ctx, ethertype: u32, at: Span, onFalse: Label)
    requires ctx.Valid()
    requires ctx.ethField.None? ==> ethertype == ETH_TYPE_IP || ethertype == ETH_TYPE_IPV6
    modifies ctx.b
    ensures GatesEmitted(old(ctx.b.stream), old(ctx.b.numLabels), [L3Gate(ctx.link, ethertype, at)], onFalse, ctx.b)
  {
    match ctx.ethField {
      case Some(ethField) =>
        GateLdhEq(ctx, ethField, ethertype, at, onFalse);
      case None =>
        var versionNibble: u32;
        if ethertype == ETH_TYPE_IP {
          versionNibble := 0x40;
        } else if ethertype == ETH_TYPE_IPV6 {
          versionNibble := 0x60;
        } else {
          assert false;
        }
        GateIpVersion(ctx, versionNibble, at, onFalse);
    }
  }

  method EmitEthertypeAndProtoGates(ctx: Ctx, ethertype: u32, protoFieldOffset: u8, ipProto: Option<u32>, at: Span,
        onFalse: Label)
    requires ctx.Valid()
    requires ctx.ethField.None? ==> ethertype == ETH_TYPE_IP || ethertype == ETH_TYPE_IPV6
    modifies ctx.b
    ensures GatesEmitted(old(ctx.b.stream), old(ctx.b.numLabels),
                         Gates(ctx.link, ethertype, protoFieldOffset, ipProto, at), onFalse, ctx.b)
  {
    ghost var s, n := ctx.b.stream, ctx.b.numLabels;
    EmitL3Gate(ctx, ethertype, at, onFalse);
    if ipProto.Some? {
      GateLdbEq(ctx, ctx.ipBase + protoFieldOffset, ipProto.value, at, onFalse);
      ghost var l3 := L3Gate(ctx.link, ethertype, at);
      ghost var proto := ByteGate(ctx.link, protoFieldOffset, ipProto.value, at);
      GatesAppend([l3], [proto], n, onFalse);
      assert [l3] + [proto] == [l3, proto];
    }
  }

  method EmitNotFragmentGate(ctx: Ctx, at: Span, onFalse: Label)
    requires ctx.Valid()
    modifies ctx.b
    ensures GatesEmitted(old(ctx.b.stream), old(ctx.b.numLabels), [NotFragmentGate(ctx.link, at)], onFalse, ctx.b)
  {
    ghost var n := ctx.b.numLabels;
    ctx.b.Emit(LdhAbs(ctx.ipBase + IP_FLAGS_FRAG_OFFSET), at);
    var notFragment := ctx.b.NewLabel();
    ctx.b.Emit(Jset(FRAG_MASK, onFalse, notFragment), at);
    ctx.b.Place(notFragment);
    OneGate(NotFragmentGate(ctx.link, at), n, onFalse);
    TestOps([LdhAbs(ctx.ipBase + IP_FLAGS_FRAG_OFFSET)], Set, FRAG_MASK, at, n + 1, onFalse, notFragment);
  }

  // ----- joining what was emitted -----

  /** What compiling promises: the code of `c` appended, or the error `c` stands for. */
  ghost predicate Compiled(s: seq<IrOp>, n: nat, c: Result<Cond, CompileError>, branch: Branch, b: IrBuilder,
                           r: Result<(), CompileError>)
    reads b
  {
    match c
    case Ok(cond) => r.Ok? && Emitted(s, n, cond, branch, b)
    case Err(e) => r == Err(e)
  }

  lemma GuardedJoins(s: seq<IrOp>, n: nat, gates: seq<Cond>, body: Cond, branch: Branch, s1: seq<IrOp>, n1: nat)
    requires s1 == s + GatesCode(gates, n, branch.onFalse).ops && n1 == GatesCode(gates, n, branch.onFalse).next
    ensures var code := Lower(body, n1, branch.onTrue, branch.onFalse);
            Lower(Guarded(gates, body), n, branch.onTrue, branch.onFalse).next == code.next &&
            s1 + code.ops == s + Lower(Guarded(gates, body), n, branch.onTrue, branch.onFalse).ops
  {
    var before := GatesCode(gates, n, branch.onFalse);
    var after := Lower(body, n1, branch.onTrue, branch.onFalse);
    LowerGuarded(gates, body, n, branch.onTrue, branch.onFalse);
    Regroup(s, before.ops, after.ops);
  }

  /** Emitting one decision, the mark its false edge leads to, and another decision emits their `or`. */
  lemma EitherJoins(s: seq<IrOp>, n: nat, c1: Cond, c2: Cond, branch: Branch)
    ensures var first := Lower(c1, n + 1, branch.onTrue, Label(n));
            var second := Lower(c2, first.next, branch.onTrue, branch.onFalse);
            Lower(Either(c1, c2), n, branch.onTrue, branch.onFalse).next == second.next &&
            s + first.ops + [Mark(Label(n))] + second.ops ==
            s + Lower(Either(c1, c2), n, branch.onTrue, branch.onFalse).ops
  {
    var first := Lower(c1, n + 1, branch.onTrue, Label(n));
    var second := Lower(c2, first.next, branch.onTrue, branch.onFalse);
    Regroup(s, first.ops, [Mark(Label(n))]);
    Regroup(s, first.ops + [Mark(Label(n))], second.ops);
  }

  // ----- addresses -----

  method EmitAddrTerminal(ctx: Ctx, gates: AddrGates, dir: DirTag, mask: Option<u32>, target: u32, at: Span,
        branch: Branch)
    requires ctx.Valid()
    modifies ctx.b
    ensures Emitted(old(ctx.b.stream), old(ctx.b.numLabels),
                    AddrTest(ctx.link, Step(gates, dir), mask, target, at), branch, ctx.b)
  {
    ghost var n := ctx.b.numLabels;
    var step: u8;
    match dir {
      case Src => step := gates.srcOffset;
      case Dst => step := gates.dstOffset;
    }
    ctx.b.Emit(LdwAbs(ctx.ipBase + step), at);
    if mask.Some? && mask.value != 0xffff_ffff {
      ctx.b.Emit(AndK(mask.value), at);
      TestOps([LdwAbs(ctx.ipBase + step), AndK(mask.value)], Eq, target, at, n, branch.onTrue, branch.onFalse);
      assert [LdwAbs(ctx.ipBase + step)] + Masking(mask.value) == [LdwAbs(ctx.ipBase + step), AndK(mask.value)];
    } else {
      TestOps([LdwAbs(ctx.ipBase + step)], Eq, target, at, n, branch.onTrue, branch.onFalse);
      assert [LdwAbs(ctx.ipBase + step)] + [] == [LdwAbs(ctx.ipBase + step)];
    }
    ctx.b.Emit(Jeq(target, branch.onTrue, branch.onFalse), at);
  }

  method CompileAddr(p: CompiledPrimitive, ctx: Ctx, addr: AddrLit, prefix: Option<u8>, branch: Branch)
    returns (r: Result<(), CompileError>)
    requires ctx.Valid()
    requires prefix.Some? ==> prefix.value as int <= (if addr.V4? then 32 else 128)
    modifies ctx.b
    ensures Compiled(old(ctx.b.stream), old(ctx.b.numLabels), AddrCond(p, None, ctx.link, addr, prefix), branch, ctx.b,
                     r)
  {
    ghost var s, n := ctx.b.stream, ctx.b.numLabels;
    if addr.V6? {
      r := CompileAddr6(p, None, ctx, addr.v6, prefix, branch);
      return;
    }
    var gates :- AddrGatesOf(p.proto, p.at);
    var _ :- EnsureEthertypeAvailable(ctx.ethField, gates, p.at);
    EmitEthertypeAndProtoGates(ctx, gates.ethertype, IP_PROTO_OFFSET, gates.ipProto, p.at, branch.onFalse);
    var mask := if prefix.Some? then Some(Netmask(prefix.value)) else None;
    var target := if mask.Some? then BitAnd(addr.v4, mask.value) else addr.v4;
    GuardedJoins(s, n, Gates(ctx.link, gates.ethertype, IP_PROTO_OFFSET, gates.ipProto, p.at),
                 AddrTest(ctx.link, Step(gates, p.dir), mask, target, p.at), branch, ctx.b.stream, ctx.b.numLabels);
    EmitAddrTerminal(ctx, gates, p.dir, mask, target, p.at, branch);
    return Ok(());
  }

  method CompileAddrPair(p1: CompiledPrimitive, p2: CompiledPrimitive, ctx: Ctx, addr: AddrLit, prefix: Option<u8>,
        branch: Branch)
    returns (r: Result<(), CompileError>)
    requires ctx.Valid()
    requires prefix.Some? ==> prefix.value as int <= (if addr.V4? then 32 else 128)
    modifies ctx.b
    ensures Compiled(old(ctx.b.stream), old(ctx.b.numLabels), AddrCond(p1, Some(p2.dir), ctx.link, addr, prefix),
                     branch, ctx.b, r)
  {
    ghost var s, n := ctx.b.stream, ctx.b.numLabels;
    if addr.V6? {
      r := CompileAddr6(p1, Some(p2), ctx, addr.v6, prefix, branch);
      return;
    }
    var gates :- AddrGatesOf(p1.proto, p1.at);
    var _ :- EnsureEthertypeAvailable(ctx.ethField, gates, p1.at);
    EmitEthertypeAndProtoGates(ctx, gates.ethertype, IP_PROTO_OFFSET, gates.ipProto, p1.at, branch.onFalse);
    var mask := if prefix.Some? then Some(Netmask(prefix.value)) else None;
    var target := if mask.Some? then BitAnd(addr.v4, mask.value) else addr.v4;
    ghost var c1 := AddrTest(ctx.link, Step(gates, p1.dir), mask, target, p1.at);
    ghost var c2 := AddrTest(ctx.link, Step(gates, p2.dir), mask, target, p1.at);
    GuardedJoins(s, n, Gates(ctx.link, gates.ethertype, IP_PROTO_OFFSET, gates.ipProto, p1.at), Either(c1, c2),
                 branch, ctx.b.stream, ctx.b.numLabels);
    EitherJoins(ctx.b.stream, ctx.b.numLabels, c1, c2, branch);
    var mid := ctx.b.NewLabel();
    EmitAddrTerminal(ctx, gates, p1.dir, mask, target, p1.at, Branch(branch.onTrue, mid));
    ctx.b.Place(mid);
    EmitAddrTerminal(ctx, gates, p2.dir, mask, target, p1.at, branch);
    return Ok(());
  }

  method CompileAddr6(first: CompiledPrimitive, second: Option<CompiledPrimitive>, ctx: Ctx, addr: u128,
        prefix: Option<u8>, branch: Branch)
    returns (r: Result<(), CompileError>)
    requires ctx.Valid()
    requires prefix.Some? ==> prefix.value <= 128
    modifies ctx.b
    ensures Compiled(old(ctx.b.stream), old(ctx.b.numLabels),
                     Addr6Cond(first, if second.Some? then Some(second.value.dir) else None, ctx.link, addr, prefix),
                     branch, ctx.b, r)
  {
    ghost var s, n := ctx.b.stream, ctx.b.numLabels;
    var at := first.at;
    if first.proto != Ip6 {
      return Err(CompileError(at, InvalidPrimitiveCombination(Ip6AddressNeedsIp6)));
    }
    var gates := AddrGates(ETH_TYPE_IPV6, None, IP6_SRC_OFFSET, IP6_DST_OFFSET);
    var available := EnsureEthertypeAvailable(ctx.ethField, gates, at);
    assert available.Ok?;  // this check concerns ARP and RARP only
    EmitEthertypeAndProtoGates(ctx, gates.ethertype, IP6_NEXTHDR_OFFSET, None, at, branch.onFalse);
    var bits := if prefix.Some? then prefix.value else 128;
    ghost var c1 := Addr6Test(ctx.link, Step(gates, first.dir), addr, bits, at);
    ghost var c2 := if second.Some? then Some(Addr6Test(ctx.link, Step(gates, second.value.dir), addr, bits, at))
                    else None;
    GuardedJoins(s, n, Gates(ctx.link, ETH_TYPE_IPV6, IP6_NEXTHDR_OFFSET, None, at), InTurn(c1, c2),
                 branch, ctx.b.stream, ctx.b.numLabels);
    EmitAddr6Directions(ctx, gates, first.dir, if second.Some? then Some(second.value.dir) else None, addr, bits, at,
                        branch);
    return Ok(());
  }

  /** The comparison for one direction, or for one and then the other. */
  method EmitAddr6Directions(ctx: Ctx, gates: AddrGates, dir: DirTag, second: Option<DirTag>, addr: u128, prefix: nat,
        at: Span, branch: Branch)
    requires ctx.Valid() && prefix <= 128
    modifies ctx.b
    ensures Emitted(old(ctx.b.stream), old(ctx.b.numLabels),
                    InTurn(Addr6Test(ctx.link, Step(gates, dir), addr, prefix, at),
                           if second.Some? then Some(Addr6Test(ctx.link, Step(gates, second.value), addr, prefix, at))
                           else None),
                    branch, ctx.b)
  {
    match second {
      case None =>
        EmitAddr6Terminal(ctx, gates, dir, addr, prefix, at, branch);
      case Some(dir2) =>
        EitherJoins(ctx.b.stream, ctx.b.numLabels, Addr6Test(ctx.link, Step(gates, dir), addr, prefix, at),
                    Addr6Test(ctx.link, Step(gates, dir2), addr, prefix, at), branch);
        var mid := ctx.b.NewLabel();
        EmitAddr6Terminal(ctx, gates, dir, addr, prefix, at, Branch(branch.onTrue, mid));
        ctx.b.Place(mid);
        EmitAddr6Terminal(ctx, gates, dir2, addr, prefix, at, branch);
    }
  }

  /** One word of the comparison, leaving to `next` when it matches. */
  method EmitAddr6Word(ctx: Ctx, step: u8, addr: u128, prefix: nat, i: nat, at: Span, next: Label, onFalse: Label)
    requires ctx.Valid() && 32 * i < prefix <= 128
    modifies ctx.b
    ensures Emitted(old(ctx.b.stream), old(ctx.b.numLabels),
                    Addr6WordTest(ctx.link, step, addr, prefix, i, at), Branch(next, onFalse), ctx.b)
  {
    ghost var n := ctx.b.numLabels;
    var word := AddrWord(addr, i);
    var bitsInPrefix := if prefix - 32 * i < 32 then prefix - 32 * i else 32;
    var mask := Netmask(bitsInPrefix);
    ctx.b.Emit(LdwAbs(ctx.ipBase + step + 4 * i), at);
    if mask != 0xffff_ffff {
      ctx.b.Emit(AndK(mask), at);
      TestOps([LdwAbs(ctx.ipBase + step + 4 * i), AndK(mask)], Eq, BitAnd(word, mask), at, n, next, onFalse);
      assert [LdwAbs(ctx.ipBase + step + 4 * i)] + Masking(mask) == [LdwAbs(ctx.ipBase + step + 4 * i), AndK(mask)];
    } else {
      TestOps([LdwAbs(ctx.ipBase + step + 4 * i)], Eq, BitAnd(word, mask), at, n, next, onFalse);
      assert [LdwAbs(ctx.ipBase + step + 4 * i)] + [] == [LdwAbs(ctx.ipBase + step + 4 * i)];
    }
    ctx.b.Emit(Jeq(BitAnd(word, mask), next, onFalse), at);
  }

  /** The code from word `i` on is word `i`'s, a mark, and the code from the next word on. */
  lemma Addr6Unrolls(s: seq<IrOp>, link: LinkType, step: u8, addr: u128, prefix: nat, i: nat, at: Span, n: nat,
        branch: Branch)
    requires 32 * i < prefix <= 128 && i + 1 < WordsOf(prefix)
    ensures var word := Lower(Addr6WordTest(link, step, addr, prefix, i, at), n + 1, Label(n), branch.onFalse);
            var after := Lower(Addr6From(link, step, addr, prefix, i + 1, at), word.next, branch.onTrue,
                               branch.onFalse);
            var here := Lower(Addr6From(link, step, addr, prefix, i, at), n, branch.onTrue, branch.onFalse);
            here.next == after.next && s + here.ops == s + word.ops + [Mark(Label(n))] + after.ops
  {
    var word := Lower(Addr6WordTest(link, step, addr, prefix, i, at), n + 1, Label(n), branch.onFalse);
    var after := Lower(Addr6From(link, step, addr, prefix, i + 1, at), word.next, branch.onTrue, branch.onFalse);
    Regroup(s, word.ops, [Mark(Label(n))]);
    Regroup(s, word.ops + [Mark(Label(n))], after.ops);
  }

  method EmitAddr6Terminal(ctx: Ctx, gates: AddrGates, dir: DirTag, addr: u128, prefix: nat, at: Span, branch: Branch)
    requires ctx.Valid() && prefix <= 128
    modifies ctx.b
    ensures Emitted(old(ctx.b.stream), old(ctx.b.numLabels),
                    Addr6Test(ctx.link, Step(gates, dir), addr, prefix, at), branch, ctx.b)
  {
    var step := Step(gates, dir);
    var words := WordsOf(prefix);
    if words == 0 {
      ctx.b.Emit(Jmp(branch.onTrue), at);
      return;
    }
    ghost var whole := Lower(Addr6From(ctx.link, step, addr, prefix, 0, at), ctx.b.numLabels, branch.onTrue,
                             branch.onFalse);
    ghost var done := ctx.b.stream + whole.ops;
    for i := 0 to words
      invariant i < words ==>
        var rest := Lower(Addr6From(ctx.link, step, addr, prefix, i, at), ctx.b.numLabels, branch.onTrue,
                          branch.onFalse);
        ctx.b.stream + rest.ops == done && rest.next == whole.next
      invariant i == words ==> ctx.b.stream == done && ctx.b.numLabels == whole.next
    {
      var last := i == words - 1;
      var next := branch.onTrue;
      if !last {
        Addr6Unrolls(ctx.b.stream, ctx.link, step, addr, prefix, i, at, ctx.b.numLabels, branch);
        next := ctx.b.NewLabel();
      }
      EmitAddr6Word(ctx, step, addr, prefix, i, at, next, branch.onFalse);
      if !last {
        ctx.b.Place(next);
      }
    }
  }

  // ----- ports -----

  /** A comparison after some loads is the loads, then the comparison alone. */
  lemma PortCompareSplits(pre: seq<IrOp2>, lo: u16, hi: u16, at: Span, n: nat, branch: Branch)
    ensures var code := Lower(PortCompare([], lo, hi, at), n, branch.onTrue, branch.onFalse);
            Lower(PortCompare(pre, lo, hi, at), n, branch.onTrue, branch.onFalse) ==
            Code(RealOps(pre, at) + code.ops, code.next)
  {
    assert RealOps([], at) == [];
    if lo == hi {
      TestOps([], Eq, lo, at, n, branch.onTrue, branch.onFalse);
    } else {
      TestOps([], Ge, lo, at, n + 1, Label(n), branch.onFalse);
      var upper := Lower(Negate(Test([], Gt, hi, at)), n + 1, branch.onTrue, branch.onFalse);
      var lower := [Real(IrInsn(CondJump(Ge, lo, Label(n), branch.onFalse), at))];
      assert RealOps(pre, at) + lower + [Mark(Label(n))] + upper.ops ==
             RealOps(pre, at) + (lower + [Mark(Label(n))] + upper.ops);
    }
  }

  method EmitPortCompare(ctx: Ctx, lo: u16, hi: u16, at: Span, branch: Branch)
    modifies ctx.b
    ensures Emitted(old(ctx.b.stream), old(ctx.b.numLabels), PortCompare([], lo, hi, at), branch, ctx.b)
  {
    ghost var n := ctx.b.numLabels;
    if lo == hi {
      ctx.b.Emit(Jeq(lo, branch.onTrue, branch.onFalse), at);
      TestOps([], Eq, lo, at, n, branch.onTrue, branch.onFalse);
    } else {
      var afterLo := ctx.b.NewLabel();
      ctx.b.Emit(Jge(lo, afterLo, branch.onFalse), at);
      ctx.b.Place(afterLo);
      ctx.b.Emit(Jgt(hi, branch.onFalse, branch.onTrue), at);
      TestOps([], Ge, lo, at, n + 1, afterLo, branch.onFalse);
      TestOps([], Gt, hi, at, n + 1, branch.onFalse, branch.onTrue);
    }
  }

  method EmitPortTerminal(ctx: Ctx, dir: DirTag, lo: u16, hi: u16, at: Span, branch: Branch)
    requires ctx.Valid()
    modifies ctx.b
    ensures Emitted(old(ctx.b.stream), old(ctx.b.numLabels), PortCompare([Port4Load(ctx.link, dir)], lo, hi, at),
                    branch, ctx.b)
  {
    PortCompareSplits([Port4Load(ctx.link, dir)], lo, hi, at, ctx.b.numLabels, branch);
    var portRel: u8;
    match dir {
      case Src => portRel := PORT_SRC_REL;
      case Dst => portRel := PORT_DST_REL;
    }
    ctx.b.Emit(LdhInd(ctx.ipBase + portRel), at);
    EmitPortCompare(ctx, lo, hi, at, branch);
  }

  method EmitPort6Terminal(ctx: Ctx, dir: DirTag, lo: u16, hi: u16, at: Span, branch: Branch)
    requires ctx.Valid()
    modifies ctx.b
    ensures Emitted(old(ctx.b.stream), old(ctx.b.numLabels), PortCompare([Port6Load(ctx.link, dir)], lo, hi, at),
                    branch, ctx.b)
  {
    PortCompareSplits([Port6Load(ctx.link, dir)], lo, hi, at, ctx.b.numLabels, branch);
    var portRel: u8;
    match dir {
      case Src => portRel := PORT_SRC_REL;
      case Dst => portRel := PORT_DST_REL;
    }
    ctx.b.Emit(LdhAbs(ctx.ipBase + IP6_HEADER_LEN + portRel), at);
    EmitPortCompare(ctx, lo, hi, at, branch);
  }

  /** The header length loaded in front of a comparison belongs to its first load. */
  lemma Port4Joins(s: seq<IrOp>, n: nat, link: LinkType, dir: DirTag, lo: u16, hi: u16, at: Span, branch: Branch)
    ensures var msh := LdxMsh(L3Info(link).ipBase);
            var bare := Lower(PortCompare([Port4Load(link, dir)], lo, hi, at), n, branch.onTrue, branch.onFalse);
            var full := Lower(PortCompare([msh, Port4Load(link, dir)], lo, hi, at), n, branch.onTrue, branch.onFalse);
            bare.next == full.next && s + [Real(IrInsn(msh, at))] + bare.ops == s + full.ops
  {
    var msh := LdxMsh(L3Info(link).ipBase);
    var load := Port4Load(link, dir);
    PortCompareSplits([load], lo, hi, at, n, branch);
    PortCompareSplits([msh, load], lo, hi, at, n, branch);
    var compare := Lower(PortCompare([], lo, hi, at), n, branch.onTrue, branch.onFalse);
    assert RealOps([msh, load], at) == [Real(IrInsn(msh, at))] + RealOps([load], at);
    Regroup(s, [Real(IrInsn(msh, at))], RealOps([load], at) + compare.ops);
    Regroup([Real(IrInsn(msh, at))], RealOps([load], at), compare.ops);
  }

  method CompilePort4(ctx: Ctx, protoNum: u32, dir: DirTag, lo: u16, hi: u16, at: Span, branch: Branch)
    requires ctx.Valid()
    modifies ctx.b
    ensures Emitted(old(ctx.b.stream), old(ctx.b.numLabels), Port4Cond(ctx.link, protoNum, dir, None, lo, hi, at),
                    branch, ctx.b)
  {
    ghost var s, n := ctx.b.stream, ctx.b.numLabels;
    ghost var gs := Gates(ctx.link, ETH_TYPE_IP, IP_PROTO_OFFSET, Some(protoNum), at);
    ghost var fragment := [NotFragmentGate(ctx.link, at)];
    GatesAppend(gs, fragment, n, branch.onFalse);
    EmitEthertypeAndProtoGates(ctx, ETH_TYPE_IP, IP_PROTO_OFFSET, Some(protoNum), at, branch.onFalse);
    EmitNotFragmentGate(ctx, at, branch.onFalse);
    ghost var body := PortCompare([LdxMsh(ctx.ipBase), Port4Load(ctx.link, dir)], lo, hi, at);
    GuardedJoins(s, n, gs + fragment, body, branch, ctx.b.stream, ctx.b.numLabels);
    Port4Joins(ctx.b.stream, ctx.b.numLabels, ctx.link, dir, lo, hi, at, branch);
    ctx.b.Emit(LdxMsh(ctx.ipBase), at);
    EmitPortTerminal(ctx, dir, lo, hi, at, branch);
  }

  method CompilePort4Pair(ctx: Ctx, protoNum: u32, dirs: (DirTag, DirTag), lo: u16, hi: u16, at: Span, branch: Branch)
    requires ctx.Valid()
    modifies ctx.b
    ensures Emitted(old(ctx.b.stream), old(ctx.b.numLabels),
                    Port4Cond(ctx.link, protoNum, dirs.0, Some(dirs.1), lo, hi, at), branch, ctx.b)
  {
    ghost var s, n := ctx.b.stream, ctx.b.numLabels;
    ghost var gs := Gates(ctx.link, ETH_TYPE_IP, IP_PROTO_OFFSET, Some(protoNum), at);
    ghost var fragment := [NotFragmentGate(ctx.link, at)];
    GatesAppend(gs, fragment, n, branch.onFalse);
    EmitEthertypeAndProtoGates(ctx, ETH_TYPE_IP, IP_PROTO_OFFSET, Some(protoNum), at, branch.onFalse);
    EmitNotFragmentGate(ctx, at, branch.onFalse);
    ghost var c1 := PortCompare([LdxMsh(ctx.ipBase), Port4Load(ctx.link, dirs.0)], lo, hi, at);
    ghost var c2 := PortCompare([Port4Load(ctx.link, dirs.1)], lo, hi, at);
    GuardedJoins(s, n, gs + fragment, Either(c1, c2), branch, ctx.b.stream, ctx.b.numLabels);
    EmitPort4Directions(ctx, dirs, lo, hi, at, branch);
  }

  /** The header length, the first direction, then the second with the header length still in X. */
  method EmitPort4Directions(ctx: Ctx, dirs: (DirTag, DirTag), lo: u16, hi: u16, at: Span, branch: Branch)
    requires ctx.Valid()
    modifies ctx.b
    ensures Emitted(old(ctx.b.stream), old(ctx.b.numLabels),
                    Either(PortCompare([LdxMsh(ctx.ipBase), Port4Load(ctx.link, dirs.0)], lo, hi, at),
                           PortCompare([Port4Load(ctx.link, dirs.1)], lo, hi, at)),
                    branch, ctx.b)
  {
    EitherJoins(ctx.b.stream, ctx.b.numLabels,
                PortCompare([LdxMsh(ctx.ipBase), Port4Load(ctx.link, dirs.0)], lo, hi, at),
                PortCompare([Port4Load(ctx.link, dirs.1)], lo, hi, at), branch);
    Port4Joins(ctx.b.stream, ctx.b.numLabels + 1, ctx.link, dirs.0, lo, hi, at,
               Branch(branch.onTrue, Label(ctx.b.numLabels)));
    ctx.b.Emit(LdxMsh(ctx.ipBase), at);
    var mid := ctx.b.NewLabel();
    EmitPortTerminal(ctx, dirs.0, lo, hi, at, Branch(branch.onTrue, mid));
    ctx.b.Place(mid);
    EmitPortTerminal(ctx, dirs.1, lo, hi, at, branch);
  }

  method CompilePort6(ctx: Ctx, protoNum: u32, dir: DirTag, lo: u16, hi: u16, at: Span, branch: Branch)
    requires ctx.Valid()
    modifies ctx.b
    ensures Emitted(old(ctx.b.stream), old(ctx.b.numLabels), Port6Cond(ctx.link, protoNum, dir, None, lo, hi, at),
                    branch, ctx.b)
  {
    ghost var s, n := ctx.b.stream, ctx.b.numLabels;
    EmitEthertypeAndProtoGates(ctx, ETH_TYPE_IPV6, IP6_NEXTHDR_OFFSET, Some(protoNum), at, branch.onFalse);
    GuardedJoins(s, n, Gates(ctx.link, ETH_TYPE_IPV6, IP6_NEXTHDR_OFFSET, Some(protoNum), at),
                 PortCompare([Port6Load(ctx.link, dir)], lo, hi, at), branch, ctx.b.stream, ctx.b.numLabels);
    EmitPort6Terminal(ctx, dir, lo, hi, at, branch);
  }

  method CompilePort6Pair(ctx: Ctx, protoNum: u32, dirs: (DirTag, DirTag), lo: u16, hi: u16, at: Span, branch: Branch)
    requires ctx.Valid()
    modifies ctx.b
    ensures Emitted(old(ctx.b.stream), old(ctx.b.numLabels),
                    Port6Cond(ctx.link, protoNum, dirs.0, Some(dirs.1), lo, hi, at), branch, ctx.b)
  {
    ghost var s, n := ctx.b.stream, ctx.b.numLabels;
    EmitEthertypeAndProtoGates(ctx, ETH_TYPE_IPV6, IP6_NEXTHDR_OFFSET, Some(protoNum), at, branch.onFalse);
    ghost var c1 := PortCompare([Port6Load(ctx.link, dirs.0)], lo, hi, at);
    ghost var c2 := PortCompare([Port6Load(ctx.link, dirs.1)], lo, hi, at);
    GuardedJoins(s, n, Gates(ctx.link, ETH_TYPE_IPV6, IP6_NEXTHDR_OFFSET, Some(protoNum), at), Either(c1, c2),
                 branch, ctx.b.stream, ctx.b.numLabels);
    EitherJoins(ctx.b.stream, ctx.b.numLabels, c1, c2, branch);
    var mid := ctx.b.NewLabel();
    EmitPort6Terminal(ctx, dirs.0, lo, hi, at, Branch(branch.onTrue, mid));
    ctx.b.Place(mid);
    EmitPort6Terminal(ctx, dirs.1, lo, hi, at, branch);
  }

  method CompilePort(p: CompiledPrimitive, ctx: Ctx, lo: u16, hi: u16, branch: Branch)
    returns (r: Result<(), CompileError>)
    requires ctx.Valid()
    modifies ctx.b
    ensures Compiled(old(ctx.b.stream), old(ctx.b.numLabels), PortCond(p, None, ctx.link, lo, hi), branch, ctx.b, r)
  {
    var protoNum :- PortProtoNum(p.proto, p.at);
    EitherJoins(ctx.b.stream, ctx.b.numLabels, Port4Cond(ctx.link, protoNum, p.dir, None, lo, hi, p.at),
                Port6Cond(ctx.link, protoNum, p.dir, None, lo, hi, p.at), branch);
    var tryV6 := ctx.b.NewLabel();
    CompilePort4(ctx, protoNum, p.dir, lo, hi, p.at, Branch(branch.onTrue, tryV6));
    ctx.b.Place(tryV6);
    CompilePort6(ctx, protoNum, p.dir, lo, hi, p.at, branch);
    return Ok(());
  }

  method CompilePortPair(p1: CompiledPrimitive, p2: CompiledPrimitive, ctx: Ctx, lo: u16, hi: u16, branch: Branch)
    returns (r: Result<(), CompileError>)
    requires ctx.Valid()
    modifies ctx.b
    ensures Compiled(old(ctx.b.stream), old(ctx.b.numLabels), PortCond(p1, Some(p2.dir), ctx.link, lo, hi), branch,
                     ctx.b, r)
  {
    var protoNum :- PortProtoNum(p1.proto, p1.at);
    EitherJoins(ctx.b.stream, ctx.b.numLabels, Port4Cond(ctx.link, protoNum, p1.dir, Some(p2.dir), lo, hi, p1.at),
                Port6Cond(ctx.link, protoNum, p1.dir, Some(p2.dir), lo, hi, p1.at), branch);
    var tryV6 := ctx.b.NewLabel();
    CompilePort4Pair(ctx, protoNum, (p1.dir, p2.dir), lo, hi, p1.at, Branch(branch.onTrue, tryV6));
    ctx.b.Place(tryV6);
    CompilePort6Pair(ctx, protoNum, (p1.dir, p2.dir), lo, hi, p1.at, branch);
    return Ok(());
  }

  // ----- the link layer -----

  method EmitMacEq(ctx: Ctx, fieldOffset: u8, mac: MacAddr, at: Span, branch: Branch)
    modifies ctx.b
    ensures Emitted(old(ctx.b.stream), old(ctx.b.numLabels), MacTest(fieldOffset, mac, at), branch, ctx.b)
  {
    ghost var n := ctx.b.numLabels;
    var hi, lo := MacHigh(mac), MacLow(mac);
    var mid := ctx.b.NewLabel();
    ctx.b.Emit(LdwAbs(fieldOffset), at);
    ctx.b.Emit(Jeq(hi, mid, branch.onFalse), at);
    ctx.b.Place(mid);
    ctx.b.Emit(LdhAbs(fieldOffset + 4), at);
    ctx.b.Emit(Jeq(lo, branch.onTrue, branch.onFalse), at);
    TestOps([LdwAbs(fieldOffset)], Eq, hi, at, n + 1, mid, branch.onFalse);
    TestOps([LdhAbs(fieldOffset + 4)], Eq, lo, at, n + 1, branch.onTrue, branch.onFalse);
  }

  method CompileEtherHost(mac: MacAddr, dir: Option<DirTag>, ctx: Ctx, at: Span, branch: Branch)
    returns (r: Result<(), CompileError>)
    requires ctx.Valid() && ctx.link == Ethernet
    modifies ctx.b
    ensures Compiled(old(ctx.b.stream), old(ctx.b.numLabels),
                     EtherCond(EtherPrimitive(EtherHost(mac, dir), at), ctx.link), branch, ctx.b, r)
  {
    match dir {
      case Some(Src) => EmitMacEq(ctx, ETH_SRC_MAC_OFFSET, mac, at, branch);
      case Some(Dst) => EmitMacEq(ctx, ETH_DST_MAC_OFFSET, mac, at, branch);
      case None =>
        EitherJoins(ctx.b.stream, ctx.b.numLabels, MacTest(ETH_DST_MAC_OFFSET, mac, at),
                    MacTest(ETH_SRC_MAC_OFFSET, mac, at), branch);
        var mid := ctx.b.NewLabel();
        EmitMacEq(ctx, ETH_DST_MAC_OFFSET, mac, at, Branch(branch.onTrue, mid));
        ctx.b.Place(mid);
        EmitMacEq(ctx, ETH_SRC_MAC_OFFSET, mac, at, branch);
    }
    return Ok(());
  }

  /** Ethernet always has an ethertype field. */
  method CompileEtherProto(ethertype: u16, ctx: Ctx, at: Span, branch: Branch) returns (r: Result<(), CompileError>)
    requires ctx.Valid() && ctx.link == Ethernet
    modifies ctx.b
    ensures Compiled(old(ctx.b.stream), old(ctx.b.numLabels),
                     EtherCond(EtherPrimitive(EtherProto(ethertype), at), ctx.link), branch, ctx.b, r)
  {
    ghost var n := ctx.b.numLabels;
    var ethField := ctx.ethField.value;
    ctx.b.Emit(LdhAbs(ethField), at);
    ctx.b.Emit(Jeq(ethertype, branch.onTrue, branch.onFalse), at);
    TestOps([LdhAbs(ethField)], Eq, ethertype, at, n, branch.onTrue, branch.onFalse);
    return Ok(());
  }

  method CompileEtherMulticast(ctx: Ctx, at: Span, branch: Branch) returns (r: Result<(), CompileError>)
    requires ctx.Valid() && ctx.link == Ethernet
    modifies ctx.b
    ensures Compiled(old(ctx.b.stream), old(ctx.b.numLabels), EtherCond(EtherPrimitive(Multicast, at), ctx.link),
                     branch, ctx.b, r)
  {
    ghost var n := ctx.b.numLabels;
    ctx.b.Emit(LdbAbs(ETH_DST_MAC_OFFSET), at);
    ctx.b.Emit(Jset(0x01, branch.onTrue, branch.onFalse), at);
    TestOps([LdbAbs(ETH_DST_MAC_OFFSET)], Set, 0x01, at, n, branch.onTrue, branch.onFalse);
    return Ok(());
  }

  method CompileEther(e: EtherPrimitive, ctx: Ctx, branch: Branch) returns (r: Result<(), CompileError>)
    requires ctx.Valid()
    modifies ctx.b
    ensures Compiled(old(ctx.b.stream), old(ctx.b.numLabels), EtherCond(e, ctx.link), branch, ctx.b, r)
  {
    if ctx.link != Ethernet {
      return Err(CompileError(e.at, InvalidPrimitiveCombination(NoMacPair)));
    }
    match e.kind {
      case EtherHost(mac, dir) => r := CompileEtherHost(mac, dir, ctx, e.at, branch);
      case EtherProto(ethertype) => r := CompileEtherProto(ethertype, ctx, e.at, branch);
      case Broadcast =>
        EmitMacEq(ctx, ETH_DST_MAC_OFFSET, ETH_MAC_BROADCAST, e.at, branch);
        r := Ok(());
      case Multicast => r := CompileEtherMulticast(ctx, e.at, branch);
    }
  }

  // ----- expressions -----

  method CompilePrimitive(p: CompiledPrimitive, ctx: Ctx, branch: Branch) returns (r: Result<(), CompileError>)
    requires ctx.Valid() && PrefixInRange(p.ty)
    modifies ctx.b
    ensures Compiled(old(ctx.b.stream), old(ctx.b.numLabels), PrimCond(p, None, ctx.link), branch, ctx.b, r)
  {
    match p.ty {
      case Host(addr) => r := CompileAddr(p, ctx, addr, None, branch);
      case Net(addr, prefix) =>
        r := CompileAddr(p, ctx, addr, Some(if prefix.Some? then prefix.value else FullPrefix(addr)), branch);
      case Port(port) => r := CompilePort(p, ctx, port, port, branch);
      case PortRange(lo, hi) => r := CompilePort(p, ctx, lo, hi, branch);
    }
  }

  method CompileDirPair(p1: CompiledPrimitive, p2: CompiledPrimitive, ctx: Ctx, branch: Branch)
    returns (r: Result<(), CompileError>)
    requires ctx.Valid() && PrefixInRange(p1.ty)
    modifies ctx.b
    ensures Compiled(old(ctx.b.stream), old(ctx.b.numLabels), PrimCond(p1, Some(p2.dir), ctx.link), branch, ctx.b, r)
  {
    match p1.ty {
      case Host(addr) => r := CompileAddrPair(p1, p2, ctx, addr, None, branch);
      case Net(addr, prefix) =>
        r := CompileAddrPair(p1, p2, ctx, addr, Some(if prefix.Some? then prefix.value else FullPrefix(addr)), branch);
      case Port(port) => r := CompilePortPair(p1, p2, ctx, port, port, branch);
      case PortRange(lo, hi) => r := CompilePortPair(p1, p2, ctx, lo, hi, branch);
    }
  }

  lemma BothJoins(s: seq<IrOp>, n: nat, c1: Cond, c2: Cond, branch: Branch)
    ensures var first := Lower(c1, n + 1, Label(n), branch.onFalse);
            var second := Lower(c2, first.next, branch.onTrue, branch.onFalse);
            Lower(Both(c1, c2), n, branch.onTrue, branch.onFalse).next == second.next &&
            s + first.ops + [Mark(Label(n))] + second.ops ==
            s + Lower(Both(c1, c2), n, branch.onTrue, branch.onFalse).ops
  {
    var first := Lower(c1, n + 1, Label(n), branch.onFalse);
    var second := Lower(c2, first.next, branch.onTrue, branch.onFalse);
    Regroup(s, first.ops, [Mark(Label(n))]);
    Regroup(s, first.ops + [Mark(Label(n))], second.ops);
  }

  /** The continuation-passing lowering of an expression. */
  method CompileExpr(e: ExpandedExpr, ctx: Ctx, branch: Branch) returns (r: Result<(), CompileError>)
    requires ctx.Valid() && InRange(e)
    modifies ctx.b
    ensures Compiled(old(ctx.b.stream), old(ctx.b.numLabels), CondOf(e, ctx.link), branch, ctx.b, r)
    decreases e, 1
  {
    match e {
      case Leaf(p) =>
        r := CompilePrimitive(p, ctx, branch);
      case EtherLeaf(ether) =>
        r := CompileEther(ether, ctx, branch);
      case Not(inner) =>
        r := CompileExpr(inner, ctx, branch.Swapped());
      case And(left, right) =>
        r := CompileAnd(e, ctx, branch);
      case Or(left, right) =>
        if IsDirPair(left, right) {
          assert InRange(left);
          r := CompileDirPair(left.prim, right.prim, ctx, branch);
        } else {
          r := CompileOr(e, ctx, branch);
        }
    }
  }

  /** The error of an `and` or a generic `or` is its leftmost side's. */
  lemma BinaryErrors(e: ExpandedExpr, link: LinkType)
    requires InRange(e) && (e.And? || (e.Or? && !IsDirPair(e.left, e.right)))
    ensures CondOf(e.left, link).Err? ==> CondOf(e, link) == CondOf(e.left, link)
    ensures CondOf(e.left, link).Ok? && CondOf(e.right, link).Err? ==> CondOf(e, link) == CondOf(e.right, link)
    ensures CondOf(e.left, link).Ok? && CondOf(e.right, link).Ok? ==>
              CondOf(e, link) == Ok(if e.And? then Both(CondOf(e.left, link).value, CondOf(e.right, link).value)
                                    else Either(CondOf(e.left, link).value, CondOf(e.right, link).value))
  {
  }

  method CompileAnd(e: ExpandedExpr, ctx: Ctx, branch: Branch) returns (r: Result<(), CompileError>)
    requires ctx.Valid() && InRange(e) && e.And?
    modifies ctx.b
    ensures Compiled(old(ctx.b.stream), old(ctx.b.numLabels), CondOf(e, ctx.link), branch, ctx.b, r)
    decreases e, 0
  {
    ghost var s, n := ctx.b.stream, ctx.b.numLabels;
    ghost var cl, cr := CondOf(e.left, ctx.link), CondOf(e.right, ctx.link);
    BinaryErrors(e, ctx.link);
    var mid := ctx.b.NewLabel();
    var _ :- CompileExpr(e.left, ctx, Branch(mid, branch.onFalse));
    ghost var first := Lower(cl.value, n + 1, mid, branch.onFalse);
    ctx.b.Place(mid);
    assert ctx.b.stream == s + first.ops + [Mark(mid)];
    r := CompileExpr(e.right, ctx, branch);
    if r.Ok? {
      ghost var second := Lower(cr.value, first.next, branch.onTrue, branch.onFalse);
      assert ctx.b.stream == s + first.ops + [Mark(mid)] + second.ops && ctx.b.numLabels == second.next;
      BothJoins(s, n, cl.value, cr.value, branch);
    }
  }

  /** The generic `or`, for anything but a source/destination pair. */
  method CompileOr(e: ExpandedExpr, ctx: Ctx, branch: Branch) returns (r: Result<(), CompileError>)
    requires ctx.Valid() && InRange(e) && e.Or? && !IsDirPair(e.left, e.right)
    modifies ctx.b
    ensures Compiled(old(ctx.b.stream), old(ctx.b.numLabels), CondOf(e, ctx.link), branch, ctx.b, r)
    decreases e, 0
  {
    ghost var s, n := ctx.b.stream, ctx.b.numLabels;
    ghost var cl, cr := CondOf(e.left, ctx.link), CondOf(e.right, ctx.link);
    BinaryErrors(e, ctx.link);
    var mid := ctx.b.NewLabel();
    var _ :- CompileExpr(e.left, ctx, Branch(branch.onTrue, mid));
    ghost var first := Lower(cl.value, n + 1, branch.onTrue, mid);
    ctx.b.Place(mid);
    assert ctx.b.stream == s + first.ops + [Mark(mid)];
    r := CompileExpr(e.right, ctx, branch);
    if r.Ok? {
      ghost var second := Lower(cr.value, first.next, branch.onTrue, branch.onFalse);
      assert ctx.b.stream == s + first.ops + [Mark(mid)] + second.ops && ctx.b.numLabels == second.next;
      EitherJoins(s, n, cl.value, cr.value, branch);
    }
  }

  /** What generation yields: the expression's decision between the two returns, or its error. */
  function Generated(e: ExpandedExpr, link: LinkType, snaplen: u32): Result<IrProgram, CompileError>
    requires InRange(e)
  {
    var c :- CondOf(e, link);
    Ok(Wrapped(c, snaplen))
  }

  method Generate(e: ExpandedExpr, link: LinkType, snaplen: u32) returns (r: Result<IrProgram, CompileError>)
    requires InRange(e)
    ensures r == Generated(e, link, snaplen)
  {
    var info := L3Info(link);
    var builder := new IrBuilder();
    var accept := builder.NewLabel();
    var reject := builder.NewLabel();
    var ctx := Ctx(builder, info.ipBase, info.ethertypeOffset, link);
    var _ :- CompileExpr(e, ctx, Branch(accept, reject));
    ghost var code := Lower(CondOf(e, link).value, 2, accept, reject);
    assert builder.stream == code.ops;
    builder.Place(accept);
    builder.Emit(Ret(snaplen), Span(0, 0));
    builder.Place(reject);
    builder.Emit(Ret(0), Span(0, 0));
    var program := builder.Finish();
    assert program.stream == code.ops + Returns(snaplen);
    return Ok(program);
  }
}
