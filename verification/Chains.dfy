/** Chains of `or`s and of `and`s that are too long to compile, and exactly how many bare `port` filters are
    not: three where frames have an ethertype, two where they do not. */
module Chains {
  import opened Words
  import opened Ast
  import opened LinkType
  import opened Filters
  import opened Compiler
  import opened CodeSize
  import opened Reach
  import opened Limits
  import opened Desugar

  // ----- chains of any operands -----

  /** The first operand of a chain of `or`s, or of `and`s: chains nest to the left. */
  function FirstOperand(e: ExpandedExpr, ors: bool): (r: ExpandedExpr)
    ensures InRange(e) ==> InRange(r)
  {
    match e
    case Or(l, r) => if ors && !IsDirPair(l, r) then FirstOperand(l, ors) else e
    case And(l, _) => if ors then e else FirstOperand(l, ors)
    case _ => e
  }

  predicate IsChain(e: ExpandedExpr, ors: bool) {
    if ors then e.Or? && !IsDirPair(e.left, e.right) else e.And?
  }

  /** The instructions of a chain behind its first operand. */
  function Behind(e: ExpandedExpr, ors: bool, link: LinkType): nat
    requires InRange(e)
  {
    if IsChain(e, ors) then Behind(e.left, ors, link) + ExprSize(e.right, link) else 0
  }

  lemma {:induction false} BehindFirst(e: ExpandedExpr, ors: bool, link: LinkType)
    requires InRange(e)
    ensures ExprSize(e, link) == ExprSize(FirstOperand(e, ors), link) + Behind(e, ors, link)
    decreases e
  {
    if IsChain(e, ors) {
      BehindFirst(e.left, ors, link);
    }
  }

  /** The jumps of the first operand are jumps of the chain: its one exit lies behind everything else, the
      other right behind it. */
  ghost predicate FirstReaches(e: ExpandedExpr, ors: bool, link: LinkType)
    requires InRange(e)
  {
    forall t: nat, f: nat :: ExprReach(e, link, t, f) >= FirstReach(e, ors, link, t, f)
  }

  /** The reach of a chain's first operand, its exits as far away as the operands behind it put them. */
  function FirstReach(e: ExpandedExpr, ors: bool, link: LinkType, toTrue: nat, toFalse: nat): nat
    requires InRange(e)
  {
    if !IsChain(e, ors) then ExprReach(e, link, toTrue, toFalse)
    else
      var size := ExprSize(e.right, link);
      FirstReach(e.left, ors, link, if ors then size + toTrue else 0, if ors then 0 else size + toFalse)
  }

  lemma LeftReaches(e: ExpandedExpr, ors: bool, link: LinkType, t: nat, f: nat)
    requires InRange(e) && IsChain(e, ors)
    ensures var size := ExprSize(e.right, link);
            ExprReach(e, link, t, f) >= ExprReach(e.left, link, if ors then size + t else 0,
                                                  if ors then 0 else size + f)
  {
  }

  lemma {:induction false} ChainReaches(e: ExpandedExpr, ors: bool, link: LinkType)
    requires InRange(e)
    ensures FirstReaches(e, ors, link)
    decreases e
  {
    if IsChain(e, ors) {
      ChainReaches(e.left, ors, link);
      ChainStep(e, ors, link);
    } else {
      assert forall t: nat, f: nat :: ExprReach(e, link, t, f) >= FirstReach(e, ors, link, t, f);
    }
  }

  lemma ChainStep(e: ExpandedExpr, ors: bool, link: LinkType)
    requires InRange(e) && IsChain(e, ors) && FirstReaches(e.left, ors, link)
    ensures FirstReaches(e, ors, link)
  {
    forall t: nat, f: nat ensures ExprReach(e, link, t, f) >= FirstReach(e, ors, link, t, f) {
      var size := ExprSize(e.right, link);
      LeftReaches(e, ors, link, t, f);
      FirstReachesAt(e.left, ors, link, if ors then size + t else 0, if ors then 0 else size + f);
    }
  }

  lemma FirstReachesAt(e: ExpandedExpr, ors: bool, link: LinkType, t: nat, f: nat)
    requires InRange(e) && FirstReaches(e, ors, link)
    ensures ExprReach(e, link, t, f) >= FirstReach(e, ors, link, t, f)
  {
  }

  /** The last leaf of the expression matches every IPv6 packet: a network of prefix length zero. */
  predicate EndsUntested(e: ExpandedExpr) {
    match e
    case Leaf(p) => Untested(p.ty)
    case EtherLeaf(_) => false
    case Not(inner) => EndsUntested(inner)
    case And(_, r) => EndsUntested(r)
    case Or(_, r) => EndsUntested(r)
  }

  lemma PrimReachesExits(p: CompiledPrimitive, pair: bool, link: LinkType, toTrue: nat, toFalse: nat)
    requires PrefixInRange(p.ty) && !Untested(p.ty)
    ensures PrimReach(p, pair, link, toTrue, toFalse) >= Max(toTrue, toFalse)
  {
  }

  /** An expression that ends in a test reaches both its exits. */
  lemma {:induction false} ReachesExits(e: ExpandedExpr, link: LinkType, toTrue: nat, toFalse: nat)
    requires InRange(e) && !EndsUntested(e)
    ensures ExprReach(e, link, toTrue, toFalse) >= Max(toTrue, toFalse)
    decreases e
  {
    match e
    case Leaf(p) => PrimReachesExits(p, false, link, toTrue, toFalse);
    case EtherLeaf(_) =>
    case Not(inner) => ReachesExits(inner, link, toFalse, toTrue);
    case And(_, r) => ReachesExits(r, link, toTrue, toFalse);
    case Or(l, r) =>
      if IsDirPair(l, r) {
        assert InRange(l);
        PrimReachesExits(l.prim, true, link, toTrue, toFalse);
      } else {
        ReachesExits(r, link, toTrue, toFalse);
      }
  }

  /** A first operand that ends in a test has a jump past all that is behind it. */
  lemma {:induction false} FirstPassesOthers(e: ExpandedExpr, ors: bool, link: LinkType, toTrue: nat, toFalse: nat)
    requires InRange(e) && !EndsUntested(FirstOperand(e, ors))
    ensures FirstReach(e, ors, link, toTrue, toFalse) >= Behind(e, ors, link) + if ors then toTrue else toFalse
    decreases e
  {
    if IsChain(e, ors) {
      var size := ExprSize(e.right, link);
      FirstPassesOthers(e.left, ors, link, if ors then size + toTrue else 0, if ors then 0 else size + toFalse);
    } else {
      assert FirstOperand(e, ors) == e;
      ReachesExits(e, link, toTrue, toFalse);
    }
  }

  /** A chain never compiles when some jump of its first operand is too long to pass the others, be it the
      operand's last jump or an earlier one. */
  lemma FirstOperandFails(e: ExpandedExpr, ors: bool, link: LinkType, snaplen: u32)
    requires InRange(e) && FitsAssembler(e, link) && FirstReach(e, ors, link, 0, 1) > 255
    ensures CompiledExpr(e, link, snaplen).Err?
  {
    if CondOf(e, link).Ok? {
      ChainReaches(e, ors, link);
      FirstReachesAt(e, ors, link, 0, 1);
      CompilesWithinReach(e, link, snaplen);
    }
  }

  /** The limit is real, and it is one of instructions, not of primitives: a chain of `or`s, or of `and`s,
      that takes more than 255 instructions behind its first operand never compiles, save when that
      operand ends in an unconditional match. */
  lemma LongChainFails(e: ExpandedExpr, ors: bool, link: LinkType, snaplen: u32)
    requires InRange(e) && FitsAssembler(e, link) && !EndsUntested(FirstOperand(e, ors))
    requires ExprSize(e, link) > ExprSize(FirstOperand(e, ors), link) + 255
    ensures CompiledExpr(e, link, snaplen).Err?
  {
    BehindFirst(e, ors, link);
    FirstPassesOthers(e, ors, link, 0, 1);
    FirstOperandFails(e, ors, link, snaplen);
  }

  // ----- chains of ports -----

  predicate BarePort(e: Expr) {
    e.PrimExpr? && e.prim.ty.Port? && e.prim.proto.None? && e.prim.dir.None?
  }

  /** `port p1 or port p2 or ...`, as it is parsed. */
  predicate PortChain(e: Expr, k: nat) {
    if k == 1 then BarePort(e)
    else k > 1 && e.OrExpr? && PortChain(e.left, k - 1) && BarePort(e.right)
  }

  /** A bare port as it is expanded: the first two leaves share their prologue, the others do not. */
  function Six(p: Primitive): ExpandedExpr {
    Or(Or(Or(Or(Or(PortLeaf(p, Tcp, Src), PortLeaf(p, Tcp, Dst)), PortLeaf(p, Udp, Src)), PortLeaf(p, Udp, Dst)),
          PortLeaf(p, Sctp, Src)), PortLeaf(p, Sctp, Dst))
  }

  function PortLeaf(p: Primitive, proto: CompiledProto, dir: DirTag): ExpandedExpr {
    Leaf(CompiledPrimitive(proto, dir, p.ty, p.at))
  }

  lemma BarePortExpands(e: Expr)
    requires BarePort(e)
    ensures Expanded(e) == Six(e.prim)
  {
    var p := e.prim;
    DefaultOrder(p);
    var leaves := AsLeaves(Choices(p));
    assert leaves == [PortLeaf(p, Tcp, Src), PortLeaf(p, Tcp, Dst), PortLeaf(p, Udp, Src), PortLeaf(p, Udp, Dst),
                      PortLeaf(p, Sctp, Src), PortLeaf(p, Sctp, Dst)];
    assert OrOf(leaves[..2]) == Or(leaves[0], leaves[1]) by {
      assert leaves[..2][..1] == [leaves[0]];
    }
    Folded(leaves, 3);
    Folded(leaves, 4);
    Folded(leaves, 5);
    Folded(leaves, 6);
    assert leaves[..6] == leaves;
  }

  lemma Folded(leaves: seq<ExpandedExpr>, n: nat)
    requires 1 < n <= |leaves|
    ensures OrOf(leaves[..n]) == Or(OrOf(leaves[..n - 1]), leaves[n - 1])
  {
    assert leaves[..n][..n - 1] == leaves[..n - 1];
  }

  /** The instructions of a bare port, and the longest jump of it: the one that ends the first comparison of
      its first pair. */
  function PortSize6(link: LinkType): nat {
    if link.Raw? then 89 else 79
  }

  function PortReach6(link: LinkType): nat {
    if link.Raw? then 79 else 70
  }

  ghost predicate ReachesAs(e: ExpandedExpr, link: LinkType, least: nat) {
    InRange(e) && forall t: nat, f: nat :: f <= 1 ==> ExprReach(e, link, t, f) == least + t
  }

  lemma PairReaches(p: Primitive, link: LinkType)
    requires p.ty.Port?
    ensures var pair := Or(PortLeaf(p, Tcp, Src), PortLeaf(p, Tcp, Dst));
            && InRange(pair)
            && CondOf(pair, link).Ok?
            && ExprSize(pair, link) == (if link.Raw? then 21 else 19)
            && ReachesAs(pair, link, if link.Raw? then 11 else 10)
  {
    var pair := Or(PortLeaf(p, Tcp, Src), PortLeaf(p, Tcp, Dst));
    assert InRange(pair.left) && InRange(pair.right);
  }

  /** One more leaf behind what there is. */
  lemma SinglePort(e: ExpandedExpr, p: Primitive, proto: CompiledProto, dir: DirTag, link: LinkType, least: nat)
    requires p.ty.Port? && (proto.Udp? || proto.Sctp?) && least >= 10
    requires e.Or? && InRange(e) && CondOf(e, link).Ok? && ReachesAs(e, link, least)
    ensures var e' := Or(e, PortLeaf(p, proto, dir));
            && InRange(e')
            && CondOf(e', link).Ok?
            && ExprSize(e', link) == ExprSize(e, link) + (if link.Raw? then 17 else 15)
            && ReachesAs(e', link, least + if link.Raw? then 17 else 15)
  {
    var leaf := PortLeaf(p, proto, dir);
    var one := if link.Raw? then 17 else 15;
    assert InRange(leaf) && ExprSize(leaf, link) == one && CondOf(leaf, link).Ok?;
    forall t: nat, f: nat | f <= 1 ensures ExprReach(Or(e, leaf), link, t, f) == least + one + t {
      assert ExprReach(e, link, one + t, 0) == least + (one + t);
      assert ExprReach(leaf, link, t, f) <= least + one + t;
    }
  }

  lemma BarePortReaches(p: Primitive, link: LinkType)
    requires p.ty.Port?
    ensures InRange(Six(p)) && CondOf(Six(p), link).Ok?
    ensures ExprSize(Six(p), link) == PortSize6(link) && ReachesAs(Six(p), link, PortReach6(link))
  {
    var n, least := if link.Raw? then 17 else 15, if link.Raw? then 11 else 10;
    PairReaches(p, link);
    var e2 := Or(PortLeaf(p, Tcp, Src), PortLeaf(p, Tcp, Dst));
    SinglePort(e2, p, Udp, Src, link, least);
    var e3 := Or(e2, PortLeaf(p, Udp, Src));
    SinglePort(e3, p, Udp, Dst, link, least + n);
    var e4 := Or(e3, PortLeaf(p, Udp, Dst));
    SinglePort(e4, p, Sctp, Src, link, least + 2 * n);
    SinglePort(Or(e4, PortLeaf(p, Sctp, Src)), p, Sctp, Dst, link, least + 3 * n);
  }

  /** A chain of bare ports takes 79 instructions for each, or 89 on raw packets, and its longest jump passes
      all of them but the first nine, or ten on raw packets. */
  lemma {:induction false} ChainSize(e: Expr, k: nat, link: LinkType)
    requires PortChain(e, k)
    ensures Expanded(e).Or? && InRange(Expanded(e)) && CondOf(Expanded(e), link).Ok?
    ensures ExprSize(Expanded(e), link) == PortSize6(link) * k
    ensures ReachesAs(Expanded(e), link, PortReach6(link) + PortSize6(link) * (k - 1))
    decreases k
  {
    if k == 1 {
      BarePortExpands(e);
      BarePortReaches(e.prim, link);
    } else {
      ChainSize(e.left, k - 1, link);
      BarePortExpands(e.right);
      BarePortReaches(e.right.prim, link);
      OneMorePort(Expanded(e.left), k - 1, Expanded(e.right), link);
    }
  }

  lemma OneMorePort(l: ExpandedExpr, k: nat, r: ExpandedExpr, link: LinkType)
    requires k > 0 && l.Or? && r.Or? && CondOfOk(l, link) && CondOfOk(r, link)
    requires ExprSize(l, link) == PortSize6(link) * k &&
             ReachesAs(l, link, PortReach6(link) + PortSize6(link) * (k - 1))
    requires ExprSize(r, link) == PortSize6(link) && ReachesAs(r, link, PortReach6(link))
    ensures CondOfOk(Or(l, r), link)
    ensures ExprSize(Or(l, r), link) == PortSize6(link) * (k + 1)
    ensures ReachesAs(Or(l, r), link, PortReach6(link) + PortSize6(link) * k)
  {
    var size, reach := PortSize6(link), PortReach6(link);
    assert size * k == size * (k - 1) + size;
    forall t: nat, f: nat | f <= 1 ensures ExprReach(Or(l, r), link, t, f) == reach + size * k + t {
      assert ExprReach(l, link, size + t, 0) == reach + size * (k - 1) + (size + t);
      assert ExprReach(r, link, t, f) == reach + t;
    }
  }

  predicate CondOfOk(e: ExpandedExpr, link: LinkType) {
    InRange(e) && CondOf(e, link).Ok?
  }

  /** `port` filters joined by `or` compile if and only if there are at most three of them, or on raw packets,
      where every gate takes one instruction more, at most two. */
  lemma PortChainLimit(e: Expr, k: nat, link: LinkType, snaplen: u32)
    requires PortChain(e, k) && InRange(Expanded(e)) && FitsAssembler(Expanded(e), link)
    ensures CompiledExpr(Expanded(e), link, snaplen).Ok? <==> k <= if link.Raw? then 2 else 3
  {
    ChainSize(e, k, link);
    CompilesWithinReach(Expanded(e), link, snaplen);
    assert ExprReach(Expanded(e), link, 0, 1) == PortReach6(link) + PortSize6(link) * (k - 1);
  }
}
