/** Default expansion: a primitive with its protocol or direction left out becomes the `or` of every
    protocol and direction it may stand for. */
module Desugar {
  import opened Words
  import opened Ast
  import opened LinkType
  import Vm
  import opened Compiler
  import opened SafeLength
  import M = Meaning

  function ProtoOf(tag: ProtoTag): CompiledProto {
    match tag
    case IpTag => Ip
    case Ip6Tag => Ip6
    case ArpTag => Arp
    case TcpTag => Tcp
    case UdpTag => Udp
    case IcmpTag => Icmp
  }

  /** The protocols a primitive stands for, in the order they are tried. */
  function Protos(p: Primitive): seq<CompiledProto> {
    match p.proto
    case Some(tag) => [ProtoOf(tag)]
    case None =>
      (match p.ty
       case Port(_) => [Tcp, Udp, Sctp]
       case PortRange(_, _) => [Tcp, Udp, Sctp]
       case _ => if p.ty.addr.V6? then [Ip6] else [Ip, Arp, Rarp])
  }

  function Dirs(p: Primitive): seq<DirTag> {
    match p.dir
    case Some(d) => [d]
    case None => [Src, Dst]
  }

  function Row(p: Primitive, proto: CompiledProto, dirs: seq<DirTag>): seq<CompiledPrimitive> {
    seq(|dirs|, j requires 0 <= j < |dirs| => CompiledPrimitive(proto, dirs[j], p.ty, p.at))
  }

  function Product(p: Primitive, protos: seq<CompiledProto>, dirs: seq<DirTag>): seq<CompiledPrimitive> {
    if protos == [] then []
    else Product(p, protos[..|protos| - 1], dirs) + Row(p, protos[|protos| - 1], dirs)
  }

  /** Everything a primitive stands for: protocols outside, directions inside. */
  function Choices(p: Primitive): seq<CompiledPrimitive> {
    Product(p, Protos(p), Dirs(p))
  }

  function AsLeaves(choices: seq<CompiledPrimitive>): seq<ExpandedExpr> {
    seq(|choices|, i requires 0 <= i < |choices| => Leaf(choices[i]))
  }

  /** The left fold of `or` over one or more expressions. */
  function OrOf(leaves: seq<ExpandedExpr>): ExpandedExpr
    requires leaves != []
  {
    if |leaves| == 1 then leaves[0]
    else Or(OrOf(leaves[..|leaves| - 1]), leaves[|leaves| - 1])
  }

  lemma {:induction false} ProductNonempty(p: Primitive, protos: seq<CompiledProto>, dirs: seq<DirTag>)
    requires protos != [] && dirs != []
    ensures Product(p, protos, dirs) != []
  {
    assert Row(p, protos[|protos| - 1], dirs) != [];
  }

  function ExpandedPrimitive(p: Primitive): ExpandedExpr {
    ProductNonempty(p, Protos(p), Dirs(p));
    OrOf(AsLeaves(Choices(p)))
  }

  function Expanded(e: Expr): ExpandedExpr {
    match e
    case PrimExpr(p) => ExpandedPrimitive(p)
    case EtherExpr(ether) => EtherLeaf(ether)
    case NotExpr(inner, _) => Not(Expanded(inner))
    case AndExpr(l, r, _) => And(Expanded(l), Expanded(r))
    case OrExpr(l, r, _) => Or(Expanded(l), Expanded(r))
  }

  // ----- the loops -----

  method OrReduce(leaves: seq<ExpandedExpr>) returns (acc: ExpandedExpr)
    requires leaves != []
    ensures acc == OrOf(leaves)
  {
    acc := leaves[0];
    for i := 1 to |leaves|
      invariant acc == OrOf(leaves[..i])
    {
      assert leaves[..i + 1][..i] == leaves[..i];
      acc := Or(acc, leaves[i]);
    }
    assert leaves[..|leaves|] == leaves;
  }

  method ExpandPrimitive(p: Primitive) returns (r: ExpandedExpr)
    ensures r == ExpandedPrimitive(p)
  {
    var protos, dirs := Protos(p), Dirs(p);
    var leaves: seq<ExpandedExpr> := [];
    for i := 0 to |protos|
      invariant leaves == AsLeaves(Product(p, protos[..i], dirs))
    {
      assert protos[..i + 1][..i] == protos[..i];
      for j := 0 to |dirs|
        invariant leaves == AsLeaves(Product(p, protos[..i], dirs) + Row(p, protos[i], dirs[..j]))
      {
        leaves := leaves + [Leaf(CompiledPrimitive(protos[i], dirs[j], p.ty, p.at))];
      }
      assert dirs[..|dirs|] == dirs;
    }
    assert protos[..|protos|] == protos;
    ProductNonempty(p, protos, dirs);
    r := OrReduce(leaves);
  }

  method Expand(e: Expr) returns (r: ExpandedExpr)
    ensures r == Expanded(e)
  {
    match e {
      case PrimExpr(p) => r := ExpandPrimitive(p);
      case EtherExpr(ether) => r := EtherLeaf(ether);
      case NotExpr(inner, _) =>
        var i := Expand(inner);
        r := Not(i);
      case AndExpr(left, right, _) =>
        var l := Expand(left);
        var r' := Expand(right);
        r := And(l, r');
      case OrExpr(left, right, _) =>
        var l := Expand(left);
        var r' := Expand(right);
        r := Or(l, r');
    }
  }

  // ----- what a primitive stands for -----

  /** The protocols a primitive without one may stand for. */
  predicate DefaultProto(ty: PrimType, proto: CompiledProto) {
    match ty
    case Port(_) => proto.Tcp? || proto.Udp? || proto.Sctp?
    case PortRange(_, _) => proto.Tcp? || proto.Udp? || proto.Sctp?
    case _ => if ty.addr.V6? then proto.Ip6? else proto.Ip? || proto.Arp? || proto.Rarp?
  }

  /** `c` settles what `p` leaves open, and agrees with it on the rest. */
  predicate Covers(p: Primitive, c: CompiledPrimitive) {
    && c.ty == p.ty
    && c.at == p.at
    && (p.dir.Some? ==> c.dir == p.dir.value)
    && (if p.proto.Some? then c.proto == ProtoOf(p.proto.value) else DefaultProto(p.ty, c.proto))
  }

  lemma {:induction false} ProductMembers(p: Primitive, protos: seq<CompiledProto>, dirs: seq<DirTag>,
        c: CompiledPrimitive)
    ensures c in Product(p, protos, dirs) <==> c.ty == p.ty && c.at == p.at && c.proto in protos && c.dir in dirs
  {
    if protos != [] {
      var last := protos[|protos| - 1];
      ProductMembers(p, protos[..|protos| - 1], dirs, c);
      assert protos == protos[..|protos| - 1] + [last];
      if c.ty == p.ty && c.at == p.at && c.proto == last && c.dir in dirs {
        var j :| 0 <= j < |dirs| && dirs[j] == c.dir;
        assert Row(p, last, dirs)[j] == c;
      }
    }
  }

  /** The choices are exactly the primitives that settle what was left open. */
  lemma ChoicesCover(p: Primitive, c: CompiledPrimitive)
    ensures c in Choices(p) <==> Covers(p, c)
  {
    ProductMembers(p, Protos(p), Dirs(p), c);
    var protos, dirs := Protos(p), Dirs(p);
    assert dirs[0] == c.dir || (|dirs| == 2 && dirs[1] == c.dir) <==> c.dir in dirs;
    assert protos[0] == c.proto || (|protos| == 3 && (protos[1] == c.proto || protos[2] == c.proto)) <==>
           c.proto in protos;
  }

  /** The order in which a primitive without qualifiers is tried. */
  lemma DefaultOrder(p: Primitive)
    requires p.proto.None? && p.dir.None?
    ensures p.ty.Port? || p.ty.PortRange? ==>
              Choices(p) == Row(p, Tcp, [Src, Dst]) + Row(p, Udp, [Src, Dst]) + Row(p, Sctp, [Src, Dst])
    ensures (p.ty.Host? || p.ty.Net?) && p.ty.addr.V4? ==>
              Choices(p) == Row(p, Ip, [Src, Dst]) + Row(p, Arp, [Src, Dst]) + Row(p, Rarp, [Src, Dst])
    ensures (p.ty.Host? || p.ty.Net?) && p.ty.addr.V6? ==> Choices(p) == Row(p, Ip6, [Src, Dst])
  {
    var protos, dirs := Protos(p), Dirs(p);
    if |protos| == 3 {
      assert protos[..2][..1] == protos[..1] && protos[..1][..0] == [];
      assert Product(p, protos[..1], dirs) == Row(p, protos[0], dirs);
      assert Product(p, protos[..2], dirs) == Row(p, protos[0], dirs) + Row(p, protos[1], dirs);
    } else {
      assert |protos| == 1 && protos[..0] == [];
      assert Product(p, protos, dirs) == [] + Row(p, protos[0], dirs);
    }
  }

  // ----- meaning -----

  /** The first answer that is not no, in order. */
  function FirstOf(answers: seq<M.Verdict>): M.Verdict {
    if answers == [] then M.No else answers[0].OrElse(FirstOf(answers[1..]))
  }

  /** `v` is the answer at some place, all answers before it being no; or it is no, as all of them are. */
  ghost predicate DecidedInOrder(answers: seq<M.Verdict>, v: M.Verdict) {
    if v.No? then forall i :: 0 <= i < |answers| ==> answers[i].No?
    else exists i :: 0 <= i < |answers| && answers[i] == v && forall j :: 0 <= j < i ==> answers[j].No?
  }

  lemma {:induction false} FirstOfInOrder(answers: seq<M.Verdict>)
    ensures DecidedInOrder(answers, FirstOf(answers))
  {
    if answers != [] {
      var rest := answers[1..];
      FirstOfInOrder(rest);
      var v := FirstOf(answers);
      if !answers[0].No? {
        assert answers[0] == v;
      } else if !v.No? {
        var i :| 0 <= i < |rest| && rest[i] == v && forall j :: 0 <= j < i ==> rest[j].No?;
        assert answers[i + 1] == v;
        forall j | 0 <= j < i + 1 ensures answers[j].No? {
          assert j > 0 ==> answers[j] == rest[j - 1];
        }
      } else {
        forall j | 0 <= j < |answers| ensures answers[j].No? {
          assert j > 0 ==> answers[j] == rest[j - 1];
        }
      }
    }
  }

  function Answers(choices: seq<CompiledPrimitive>, link: LinkType, packet: Bytes): seq<M.Verdict>
    requires forall c :: c in choices ==> PrefixInRange(c.ty)
  {
    seq(|choices|, i requires 0 <= i < |choices| =>
          assert choices[i] in choices; M.LeafMeaning(choices[i], link, packet))
  }

  predicate InSourceRange(e: Expr) {
    match e
    case PrimExpr(p) => PrefixInRange(p.ty)
    case EtherExpr(_) => true
    case NotExpr(inner, _) => InSourceRange(inner)
    case AndExpr(l, r, _) => InSourceRange(l) && InSourceRange(r)
    case OrExpr(l, r, _) => InSourceRange(l) && InSourceRange(r)
  }

  lemma ChoicesInRange(p: Primitive)
    requires PrefixInRange(p.ty)
    ensures forall c :: c in Choices(p) ==> PrefixInRange(c.ty)
  {
    forall c | c in Choices(p) ensures PrefixInRange(c.ty) {
      ChoicesCover(p, c);
    }
  }

  /** The meaning of an expression as written: a primitive asks its choices in order. */
  function SourceMeaning(e: Expr, link: LinkType, packet: Bytes): M.Verdict
    requires InSourceRange(e)
  {
    match e
    case PrimExpr(p) =>
      ChoicesInRange(p);
      FirstOf(Answers(Choices(p), link, packet))
    case EtherExpr(ether) => M.EtherMeaning(ether.kind, packet)
    case NotExpr(inner, _) => SourceMeaning(inner, link, packet).Negated()
    case AndExpr(l, r, _) => SourceMeaning(l, link, packet).AndThen(SourceMeaning(r, link, packet))
    case OrExpr(l, r, _) => SourceMeaning(l, link, packet).OrElse(SourceMeaning(r, link, packet))
  }

  lemma {:induction false} FirstOfSnoc(answers: seq<M.Verdict>, v: M.Verdict)
    ensures FirstOf(answers + [v]) == FirstOf(answers).OrElse(v)
  {
    if answers == [] {
      assert [v][1..] == [];
      assert answers + [v] == [v];
    } else {
      assert (answers + [v])[1..] == answers[1..] + [v];
      FirstOfSnoc(answers[1..], v);
    }
  }

  /** The left fold asks the choices in order. */
  lemma {:induction false} FoldAsksInOrder(choices: seq<CompiledPrimitive>, link: LinkType, packet: Bytes)
    requires choices != [] && forall c :: c in choices ==> PrefixInRange(c.ty)
    ensures InRange(OrOf(AsLeaves(choices)))
    ensures M.ExprMeaning(OrOf(AsLeaves(choices)), link, packet) == FirstOf(Answers(choices, link, packet))
  {
    var n := |choices| - 1;
    assert choices[n] in choices;
    var answers := Answers(choices, link, packet);
    if n == 0 {
      assert answers[1..] == [];
    } else {
      var before := choices[..n];
      assert forall c :: c in before ==> c in choices;
      assert AsLeaves(choices)[..n] == AsLeaves(before);
      assert answers == Answers(before, link, packet) + [answers[n]];
      FoldAsksInOrder(before, link, packet);
      FirstOfSnoc(Answers(before, link, packet), answers[n]);
    }
  }

  /** Desugaring preserves meaning, and keeps literals in range. */
  lemma {:induction false} ExpansionPreservesMeaning(e: Expr, link: LinkType, packet: Bytes)
    requires InSourceRange(e)
    ensures InRange(Expanded(e))
    ensures M.ExprMeaning(Expanded(e), link, packet) == SourceMeaning(e, link, packet)
    decreases e
  {
    match e
    case PrimExpr(p) =>
      ChoicesInRange(p);
      ProductNonempty(p, Protos(p), Dirs(p));
      FoldAsksInOrder(Choices(p), link, packet);
    case EtherExpr(_) =>
    case NotExpr(inner, _) =>
      ExpansionPreservesMeaning(inner, link, packet);
    case AndExpr(l, r, _) =>
      ExpansionPreservesMeaning(l, link, packet);
      ExpansionPreservesMeaning(r, link, packet);
    case OrExpr(l, r, _) =>
      ExpansionPreservesMeaning(l, link, packet);
      ExpansionPreservesMeaning(r, link, packet);
  }

  /** Where nothing is out of reach, a primitive holds when one of the protocols and directions it may
      stand for does. */
  lemma PrimitiveIsAnyChoice(p: Primitive, link: LinkType, packet: Bytes)
    requires PrefixInRange(p.ty) && LongEnough(link, packet)
    ensures SourceMeaning(PrimExpr(p), link, packet).Yes? <==>
            exists c :: Covers(p, c) && M.LeafMeaning(c, link, packet).Yes?
  {
    ChoicesInRange(p);
    var choices := Choices(p);
    var answers := Answers(choices, link, packet);
    FirstOfInOrder(answers);
    if SourceMeaning(PrimExpr(p), link, packet).Yes? {
      var i :| 0 <= i < |answers| && answers[i].Yes?;
      ChoicesCover(p, choices[i]);
    }
    if c :| Covers(p, c) && M.LeafMeaning(c, link, packet).Yes? {
      ChoicesCover(p, c);
      var k :| 0 <= k < |choices| && choices[k] == c;
      assert answers[k].Yes?;
      NeverUnknown(choices, link, packet);
    }
  }

  lemma NeverUnknown(choices: seq<CompiledPrimitive>, link: LinkType, packet: Bytes)
    requires LongEnough(link, packet) && forall c :: c in choices ==> PrefixInRange(c.ty)
    ensures forall i :: 0 <= i < |choices| ==> !Answers(choices, link, packet)[i].Unknown?
  {
    forall i | 0 <= i < |choices| ensures !Answers(choices, link, packet)[i].Unknown? {
      assert choices[i] in choices;
      LongSettlesLeaf(choices[i], link, packet);
    }
  }

  // ----- through the back end -----

  lemma ExpandedInRange(e: Expr)
    requires InSourceRange(e)
    ensures InRange(Expanded(e))
  {
    ExpansionPreservesMeaning(e, Raw, []);
  }

  /** From the parsed expression to the program: expansion, generation and assembly together preserve
      the meaning of what was written. */
  lemma SourcePreservation(e: Expr, link: LinkType, snaplen: u32, packet: Bytes)
    requires InSourceRange(e) && InRange(Expanded(e)) && FitsAssembler(Expanded(e), link)
    requires CompiledExpr(Expanded(e), link, snaplen).Ok?
    ensures Ending(CompiledExpr(Expanded(e), link, snaplen).value, packet) ==
            StopFor(SourceMeaning(e, link, packet), snaplen)
  {
    ExpansionPreservesMeaning(e, link, packet);
    SemanticPreservation(Expanded(e), link, snaplen, packet);
  }

  /** The compiled program of a bare primitive accepts a long enough packet exactly when one of its
      protocols and directions matches. */
  lemma PrimitiveProgram(p: Primitive, link: LinkType, snaplen: u32, packet: Bytes)
    requires PrefixInRange(p.ty) && LongEnough(link, packet) && snaplen != 0
    requires InRange(Expanded(PrimExpr(p))) && FitsAssembler(Expanded(PrimExpr(p)), link)
    requires CompiledExpr(Expanded(PrimExpr(p)), link, snaplen).Ok?
    ensures Vm.Status(Ending(CompiledExpr(Expanded(PrimExpr(p)), link, snaplen).value, packet)) == snaplen <==>
            exists c :: Covers(p, c) && M.LeafMeaning(c, link, packet).Yes?
  {
    SourcePreservation(PrimExpr(p), link, snaplen, packet);
    PrimitiveIsAnyChoice(p, link, packet);
  }
}
