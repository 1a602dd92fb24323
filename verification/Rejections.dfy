/** Generation fails exactly on the leaves whose protocol, type and link type do not combine, and
    compilation only there and on jumps that are too long. */
module Rejections {
  import opened Words
  import opened Errors
  import opened Ast
  import opened LinkType
  import opened Filters
  import opened Codegen
  import opened Compiler
  import opened Limits
  import opened Reach

  /** The combinations that mean nothing. ARP and RARP carry IPv4 addresses and need an ethertype to be
      recognised by; IPv6 addresses belong to `ip6` and only to it; ports belong to transports. */
  function LeafMismatch(p: CompiledPrimitive, link: LinkType): Option<Mismatch> {
    match p.ty
    case Port(_) => if p.proto.Tcp? || p.proto.Udp? || p.proto.Sctp? then None else Some(PortNeedsTransport)
    case PortRange(_, _) => if p.proto.Tcp? || p.proto.Udp? || p.proto.Sctp? then None else Some(PortNeedsTransport)
    case _ =>
      if p.ty.addr.V6? then (if p.proto.Ip6? then None else Some(Ip6AddressNeedsIp6))
      else if p.proto.Ip6? then Some(Ip6NeedsIp6Address)
      else if p.proto.Sctp? then Some(SctpHasNoAddresses)
      else if (p.proto.Arp? || p.proto.Rarp?) && link.Raw? then Some(NoEthertypeField)
      else None
  }

  /** The error a leaf alone stands for, if any. */
  function LeafError(leaf: ExpandedExpr, link: LinkType): Option<CompileError>
    requires leaf.Leaf? || leaf.EtherLeaf?
  {
    match leaf
    case Leaf(p) =>
      (match LeafMismatch(p, link)
       case Some(why) => Some(CompileError(p.at, InvalidPrimitiveCombination(why)))
       case None => None)
    case EtherLeaf(e) =>
      if link.Ethernet? then None else Some(CompileError(e.at, InvalidPrimitiveCombination(NoMacPair)))
  }

  /** The leaves of an expression, from left to right. */
  function Leaves(e: ExpandedExpr): (r: seq<ExpandedExpr>)
    ensures forall i :: 0 <= i < |r| ==> r[i].Leaf? || r[i].EtherLeaf?
  {
    match e
    case Leaf(_) => [e]
    case EtherLeaf(_) => [e]
    case Not(inner) => Leaves(inner)
    case And(l, r) => Leaves(l) + Leaves(r)
    case Or(l, r) => Leaves(l) + Leaves(r)
  }

  /** `error` is the error of the first leaf in `leaves` that has one. */
  ghost predicate FirstError(leaves: seq<ExpandedExpr>, link: LinkType, error: CompileError)
    requires forall i :: 0 <= i < |leaves| ==> leaves[i].Leaf? || leaves[i].EtherLeaf?
  {
    exists i :: 0 <= i < |leaves| && LeafError(leaves[i], link) == Some(error) &&
                forall j :: 0 <= j < i ==> LeafError(leaves[j], link).None?
  }

  ghost predicate NoError(leaves: seq<ExpandedExpr>, link: LinkType)
    requires forall i :: 0 <= i < |leaves| ==> leaves[i].Leaf? || leaves[i].EtherLeaf?
  {
    forall i :: 0 <= i < |leaves| ==> LeafError(leaves[i], link).None?
  }

  lemma PrimFails(p: CompiledPrimitive, second: Option<DirTag>, link: LinkType)
    requires PrefixInRange(p.ty)
    ensures PrimCond(p, second, link).Err? ==> LeafError(Leaf(p), link) == Some(PrimCond(p, second, link).error)
    ensures PrimCond(p, second, link).Ok? <==> LeafError(Leaf(p), link).None?
  {
  }

  lemma FirstErrorJoins(l: seq<ExpandedExpr>, r: seq<ExpandedExpr>, link: LinkType, error: CompileError)
    requires forall i :: 0 <= i < |l| ==> l[i].Leaf? || l[i].EtherLeaf?
    requires forall i :: 0 <= i < |r| ==> r[i].Leaf? || r[i].EtherLeaf?
    ensures FirstError(l, link, error) ==> FirstError(l + r, link, error)
    ensures NoError(l, link) && FirstError(r, link, error) ==> FirstError(l + r, link, error)
    ensures NoError(l, link) && NoError(r, link) <==> NoError(l + r, link)
  {
    var s := l + r;
    if FirstError(l, link, error) {
      var i :| 0 <= i < |l| && LeafError(l[i], link) == Some(error) &&
               forall j :: 0 <= j < i ==> LeafError(l[j], link).None?;
      assert LeafError(s[i], link) == Some(error);
    }
    if NoError(l, link) && FirstError(r, link, error) {
      var i :| 0 <= i < |r| && LeafError(r[i], link) == Some(error) &&
               forall j :: 0 <= j < i ==> LeafError(r[j], link).None?;
      assert LeafError(s[|l| + i], link) == Some(error);
      forall j | 0 <= j < |l| + i
        ensures LeafError(s[j], link).None?
      {
        if j >= |l| {
          assert s[j] == r[j - |l|];
        }
      }
    }
    if NoError(s, link) {
      forall i | 0 <= i < |l| ensures LeafError(l[i], link).None? { assert s[i] == l[i]; }
      forall i | 0 <= i < |r| ensures LeafError(r[i], link).None? { assert s[|l| + i] == r[i]; }
    }
  }

  /** Generation succeeds exactly when no leaf is invalid, and otherwise reports the leftmost one. */
  lemma {:induction false} GenerationErrors(e: ExpandedExpr, link: LinkType)
    requires InRange(e)
    ensures CondOf(e, link).Ok? <==> NoError(Leaves(e), link)
    ensures CondOf(e, link).Err? ==> FirstError(Leaves(e), link, CondOf(e, link).error)
    decreases e
  {
    match e
    case Leaf(p) =>
      PrimFails(p, None, link);
      assert Leaves(e)[0] == e;
    case EtherLeaf(ether) =>
      assert Leaves(e)[0] == e;
    case Not(inner) =>
      GenerationErrors(inner, link);
    case And(l, r) =>
      BinaryGenerationErrors(e, l, r, link);
    case Or(l, r) =>
      if IsDirPair(l, r) {
        PairErrors(l, r, link);
      } else {
        BinaryGenerationErrors(e, l, r, link);
      }
  }

  lemma {:induction false} BinaryGenerationErrors(e: ExpandedExpr, l: ExpandedExpr, r: ExpandedExpr, link: LinkType)
    requires InRange(e) && (e == And(l, r) || (e == Or(l, r) && !IsDirPair(l, r)))
    ensures CondOf(e, link).Ok? <==> NoError(Leaves(l) + Leaves(r), link)
    ensures CondOf(e, link).Err? ==> FirstError(Leaves(l) + Leaves(r), link, CondOf(e, link).error)
    decreases e, 0
  {
    GenerationErrors(l, link);
    GenerationErrors(r, link);
    BinaryErrors(e, link);
    FirstErrorJoins(Leaves(l), Leaves(r), link,
                    if CondOf(e, link).Err? then CondOf(e, link).error
                    else CompileError(Span(0, 0), JumpDisplacementOverflow(0, 0)));
  }

  lemma PairErrors(l: ExpandedExpr, r: ExpandedExpr, link: LinkType)
    requires InRange(Or(l, r)) && IsDirPair(l, r)
    ensures CondOf(Or(l, r), link).Ok? <==> NoError(Leaves(l) + Leaves(r), link)
    ensures CondOf(Or(l, r), link).Err? ==> FirstError(Leaves(l) + Leaves(r), link, CondOf(Or(l, r), link).error)
  {
    assert InRange(l);
    PrimFails(l.prim, Some(r.prim.dir), link);
    var s := Leaves(l) + Leaves(r);
    assert s == [l, r];
    assert s[0] == l && s[1] == r;
    assert LeafMismatch(l.prim, link) == LeafMismatch(r.prim, link);
  }

  /** An expression fails to compile exactly when a leaf of it is invalid or its longest conditional jump is
      longer than 255 instructions. An invalid leaf is reported first, the leftmost one; otherwise the first
      jump that is too long, its true branch before its false one, with its true length, as `Limits.FirstJump`
      computes it from the expression (`Limits.ReachIsLongest` says that the program has it there). */
  lemma CompileFailsExactly(e: ExpandedExpr, link: LinkType, snaplen: u32)
    requires InRange(e) && FitsAssembler(e, link)
    ensures CompiledExpr(e, link, snaplen).Err? <==> !NoError(Leaves(e), link) || ExprReach(e, link, 0, 1) > 255
    ensures !NoError(Leaves(e), link) ==> FirstError(Leaves(e), link, CompiledExpr(e, link, snaplen).error)
    ensures NoError(Leaves(e), link) && CompiledExpr(e, link, snaplen).Err? ==>
              CondOf(e, link).Ok? && FirstJump(e, link, 255).Some? &&
              Reports(CompiledExpr(e, link, snaplen).error, FirstJump(e, link, 255).value)
  {
    GenerationErrors(e, link);
    if Generated(e, link, snaplen).Ok? {
      CompilesWithinReach(e, link, snaplen);
      if CompiledExpr(e, link, snaplen).Err? {
        ReportsFirstJump(e, link, snaplen);
      }
    }
  }
}
