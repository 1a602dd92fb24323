/** A network packet is judged the same whatever it is framed in: raw, behind an Ethernet header, or behind a Linux
    cooked one. */
module Encapsulation {
  import opened Words
  import opened Errors
  import opened Ast
  import opened LinkType
  import opened Filters
  import opened GateProofs
  import opened Codegen
  import opened Compiler
  import opened CodeSize
  import opened Rejections
  import opened Limits
  import M = Meaning

  /** Nothing is asked of the link layer, nor of ARP and RARP, which raw packets do not have. */
  predicate NetworkOnly(e: ExpandedExpr) {
    match e
    case Leaf(p) => !p.proto.Arp? && !p.proto.Rarp?
    case EtherLeaf(_) => false
    case Not(inner) => NetworkOnly(inner)
    case And(l, r) => NetworkOnly(l) && NetworkOnly(r)
    case Or(l, r) => NetworkOnly(l) && NetworkOnly(r)
  }

  /** The last two bytes of the frame in front say what the packet's version nibble says. */
  predicate Announces(front: Bytes, packet: Bytes) {
    && |front| >= 2
    && packet != []
    && var kind := front[|front| - 2..];
    || (packet[0] / 16 == 4 && kind == [0x08, 0x00])
    || (packet[0] / 16 == 6 && kind == [0x86, 0xdd])
  }

  /** The packet behind twelve bytes of addresses and the ethertype, or behind fourteen bytes of a cooked header and
      the ethertype. */
  predicate IsFrame(link: LinkType, front: Bytes, packet: Bytes) {
    && Announces(front, packet)
    && (link.Ethernet? ==> |front| == 12 + 2)
    && (link.LinuxSll? ==> |front| == 14 + 2)
    && !link.Raw?
  }

  lemma FieldBehind(front: Bytes, packet: Bytes, o: nat, n: nat)
    ensures M.Field(front + packet, |front| + o, n) == M.Field(packet, o, n)
  {
    if o + n <= |packet| {
      assert (front + packet)[|front| + o..|front| + o + n] == packet[o..o + n];
    }
  }

  lemma InNetwork6Behind(front: Bytes, packet: Bytes, o: nat, addr: nat, prefix: nat)
    requires prefix <= 128
    ensures M.InNetwork6(front + packet, |front| + o, 4, addr, prefix) == M.InNetwork6(packet, o, 4, addr, prefix)
  {
    if o <= |packet| {
      assert (front + packet)[|front| + o..] == packet[o..];
    }
  }

  lemma CarriesBehind(link: LinkType, front: Bytes, packet: Bytes, family: M.Family)
    requires IsFrame(link, front, packet) && (family.IPv4? || family.IPv6?)
    ensures M.Carries(link, family, front + packet) == M.Carries(Raw, family, packet)
  {
    var frame := front + packet;
    var n := |front|;
    assert frame[n - 2..n] == front[n - 2..];
    BigEndian2(front[n - 2..]);
    BigEndian1(packet[0..1]);
    Pow2Values();
  }

  lemma ProtocolBehind(link: LinkType, front: Bytes, packet: Bytes, family: M.Family, num: nat)
    requires IsFrame(link, front, packet)
    ensures M.ProtocolIs(link, family, num, front + packet) == M.ProtocolIs(Raw, family, num, packet)
  {
    FieldBehind(front, packet, if family == M.IPv6 then 6 else 9, 1);
  }

  lemma Port6Behind(link: LinkType, front: Bytes, packet: Bytes, num: nat, dir: DirTag, lo: nat, hi: nat)
    requires IsFrame(link, front, packet)
    ensures M.Port6Meaning(link, num, dir, lo, hi, front + packet) == M.Port6Meaning(Raw, num, dir, lo, hi, packet)
  {
    CarriesBehind(link, front, packet, M.IPv6);
    ProtocolBehind(link, front, packet, M.IPv6, num);
    FieldBehind(front, packet, 40 + M.PortAt(dir), 2);
  }

  lemma Port4FieldBehind(link: LinkType, front: Bytes, packet: Bytes, dir: DirTag)
    requires IsFrame(link, front, packet)
    ensures M.Port4Field(link, dir, front + packet) == M.Port4Field(Raw, dir, packet)
  {
    FieldBehind(front, packet, 0, 1);
    var ihl := M.Below(M.Field(packet, 0, 1), 4);
    if ihl.Some? {
      FieldBehind(front, packet, 4 * ihl.value + M.PortAt(dir), 2);
    }
  }

  lemma Port4Behind(link: LinkType, front: Bytes, packet: Bytes, num: nat, dir: DirTag, lo: nat, hi: nat)
    requires IsFrame(link, front, packet)
    ensures M.Port4Meaning(link, num, dir, lo, hi, front + packet) == M.Port4Meaning(Raw, num, dir, lo, hi, packet)
  {
    CarriesBehind(link, front, packet, M.IPv4);
    ProtocolBehind(link, front, packet, M.IPv4, num);
    FieldBehind(front, packet, 6, 2);
    Port4FieldBehind(link, front, packet, dir);
  }

  lemma LeafBehind(link: LinkType, front: Bytes, packet: Bytes, p: CompiledPrimitive)
    requires IsFrame(link, front, packet) && PrefixInRange(p.ty) && NetworkOnly(Leaf(p))
    ensures M.LeafMeaning(p, link, front + packet) == M.LeafMeaning(p, Raw, packet)
  {
    var num := M.TransportOf(p.proto);
    var n := if num.Some? then num.value else 0;
    match p.ty
    case Port(port) =>
      Port4Behind(link, front, packet, n, p.dir, port, port);
      Port6Behind(link, front, packet, n, p.dir, port, port);
    case PortRange(lo, hi) =>
      Port4Behind(link, front, packet, n, p.dir, lo, hi);
      Port6Behind(link, front, packet, n, p.dir, lo, hi);
    case _ =>
      var family := M.FamilyOf(p.proto);
      CarriesBehind(link, front, packet, family);
      ProtocolBehind(link, front, packet, family, n);
      FieldBehind(front, packet, M.AddressAt(family, p.dir), 4);
      if p.ty.addr.V6? {
        InNetwork6Behind(front, packet, M.AddressAt(family, p.dir), p.ty.addr.v6, M.PrefixOf(p.ty));
      }
  }

  /** A filter about network and transport headers means on a frame what it means on the packet inside. */
  lemma {:induction false} MeaningInside(e: ExpandedExpr, link: LinkType, front: Bytes, packet: Bytes)
    requires InRange(e) && NetworkOnly(e) && IsFrame(link, front, packet)
    ensures M.ExprMeaning(e, link, front + packet) == M.ExprMeaning(e, Raw, packet)
    decreases e
  {
    match e
    case Leaf(p) =>
      LeafBehind(link, front, packet, p);
    case EtherLeaf(_) =>
    case Not(inner) =>
      MeaningInside(inner, link, front, packet);
    case And(l, r) =>
      MeaningInside(l, link, front, packet);
      MeaningInside(r, link, front, packet);
    case Or(l, r) =>
      MeaningInside(l, link, front, packet);
      MeaningInside(r, link, front, packet);
  }

  // ----- programs -----

  /** Framing changes nothing about which leaves are valid. */
  lemma {:induction false} SameErrors(e: ExpandedExpr, link: LinkType)
    requires InRange(e) && NetworkOnly(e)
    ensures if CondOf(e, Raw).Ok? then CondOf(e, link).Ok?
            else CondOf(e, link).Err? && CondOf(e, link).error == CondOf(e, Raw).error
    decreases e
  {
    match e
    case Leaf(p) =>
      PrimFails(p, None, link);
      PrimFails(p, None, Raw);
    case EtherLeaf(_) =>
    case Not(inner) =>
      SameErrors(inner, link);
    case And(l, r) =>
      BinaryErrors(e, link);
      BinaryErrors(e, Raw);
      SameErrors(l, link);
      SameErrors(r, link);
    case Or(l, r) =>
      if IsDirPair(l, r) {
        assert InRange(l);
        PrimFails(l.prim, Some(r.prim.dir), link);
        PrimFails(l.prim, Some(r.prim.dir), Raw);
      } else {
        BinaryErrors(e, link);
        BinaryErrors(e, Raw);
        SameErrors(l, link);
        SameErrors(r, link);
      }
  }

  lemma PrimNoLonger(p: CompiledPrimitive, pair: bool, link: LinkType, t: nat, f: nat, t': nat, f': nat)
    requires PrefixInRange(p.ty) && t <= t' && f <= f'
    ensures PrimSize(p, pair, link) <= PrimSize(p, pair, Raw)
    ensures PrimReach(p, pair, link, t, f) <= PrimReach(p, pair, Raw, t', f')
  {
  }

  /** With an ethertype field an expression takes no more instructions than without one. */
  lemma {:induction false} NoLarger(e: ExpandedExpr, link: LinkType)
    requires InRange(e)
    ensures ExprSize(e, link) <= ExprSize(e, Raw)
    decreases e
  {
    match e
    case Leaf(p) =>
      PrimNoLonger(p, false, link, 0, 0, 0, 0);
    case EtherLeaf(_) =>
    case Not(inner) =>
      NoLarger(inner, link);
    case And(l, r) =>
      NoLarger(l, link);
      NoLarger(r, link);
    case Or(l, r) =>
      if IsDirPair(l, r) {
        assert InRange(l);
        PrimNoLonger(l.prim, true, link, 0, 0, 0, 0);
      } else {
        NoLarger(l, link);
        NoLarger(r, link);
      }
  }

  /** Nor does it jump further. */
  ghost predicate NoLonger(e: ExpandedExpr, link: LinkType)
    requires InRange(e)
  {
    forall t: nat, f: nat, t': nat, f': nat ::
      t <= t' && f <= f' ==> ExprReach(e, link, t, f) <= ExprReach(e, Raw, t', f')
  }

  lemma NoLongerAt(e: ExpandedExpr, link: LinkType, t: nat, f: nat, t': nat, f': nat)
    requires InRange(e) && NoLonger(e, link) && t <= t' && f <= f'
    ensures ExprReach(e, link, t, f) <= ExprReach(e, Raw, t', f')
  {
  }

  lemma AndReach(l: ExpandedExpr, r: ExpandedExpr, link: LinkType, t: nat, f: nat)
    requires InRange(And(l, r))
    ensures ExprReach(And(l, r), link, t, f) ==
            Max(ExprReach(l, link, 0, ExprSize(r, link) + f), ExprReach(r, link, t, f))
  {
  }

  lemma OrReach(l: ExpandedExpr, r: ExpandedExpr, link: LinkType, t: nat, f: nat)
    requires InRange(Or(l, r)) && !IsDirPair(l, r)
    ensures ExprReach(Or(l, r), link, t, f) ==
            Max(ExprReach(l, link, ExprSize(r, link) + t, 0), ExprReach(r, link, t, f))
  {
  }

  lemma AndNoLonger(l: ExpandedExpr, r: ExpandedExpr, link: LinkType)
    requires InRange(And(l, r)) && NoLonger(l, link) && NoLonger(r, link) && ExprSize(r, link) <= ExprSize(r, Raw)
    ensures NoLonger(And(l, r), link)
  {
    forall t: nat, f: nat, t': nat, f': nat | t <= t' && f <= f'
      ensures ExprReach(And(l, r), link, t, f) <= ExprReach(And(l, r), Raw, t', f')
    {
      AndReach(l, r, link, t, f);
      AndReach(l, r, Raw, t', f');
      NoLongerAt(l, link, 0, ExprSize(r, link) + f, 0, ExprSize(r, Raw) + f');
      NoLongerAt(r, link, t, f, t', f');
    }
  }

  lemma OrNoLonger(l: ExpandedExpr, r: ExpandedExpr, link: LinkType)
    requires InRange(Or(l, r)) && !IsDirPair(l, r)
    requires NoLonger(l, link) && NoLonger(r, link) && ExprSize(r, link) <= ExprSize(r, Raw)
    ensures NoLonger(Or(l, r), link)
  {
    forall t: nat, f: nat, t': nat, f': nat | t <= t' && f <= f'
      ensures ExprReach(Or(l, r), link, t, f) <= ExprReach(Or(l, r), Raw, t', f')
    {
      OrReach(l, r, link, t, f);
      OrReach(l, r, Raw, t', f');
      NoLongerAt(l, link, ExprSize(r, link) + t, 0, ExprSize(r, Raw) + t', 0);
      NoLongerAt(r, link, t, f, t', f');
    }
  }

  lemma LeafNoLonger(e: ExpandedExpr, link: LinkType)
    requires InRange(e) && (e.Leaf? || e.EtherLeaf? || (e.Or? && IsDirPair(e.left, e.right)))
    ensures NoLonger(e, link)
  {
    forall t: nat, f: nat, t': nat, f': nat | t <= t' && f <= f'
      ensures ExprReach(e, link, t, f) <= ExprReach(e, Raw, t', f')
    {
      match e
      case Leaf(p) => PrimNoLonger(p, false, link, t, f, t', f');
      case EtherLeaf(_) =>
      case Or(l, r) =>
        assert InRange(l);
        PrimNoLonger(l.prim, true, link, t, f, t', f');
    }
  }

  lemma NotNoLonger(inner: ExpandedExpr, link: LinkType)
    requires InRange(inner) && NoLonger(inner, link)
    ensures NoLonger(Not(inner), link)
  {
    forall t: nat, f: nat, t': nat, f': nat | t <= t' && f <= f'
      ensures ExprReach(Not(inner), link, t, f) <= ExprReach(Not(inner), Raw, t', f')
    {
      NoLongerAt(inner, link, f, t, f', t');
    }
  }

  lemma {:induction false} JumpsNoLonger(e: ExpandedExpr, link: LinkType)
    requires InRange(e)
    ensures NoLonger(e, link)
    decreases e
  {
    if e.Not? {
      JumpsNoLonger(e.inner, link);
      NotNoLonger(e.inner, link);
    } else if e.And? || (e.Or? && !IsDirPair(e.left, e.right)) {
      NoLarger(e.right, link);
      JumpsNoLonger(e.left, link);
      JumpsNoLonger(e.right, link);
      if e.And? {
        AndNoLonger(e.left, e.right, link);
      } else {
        OrNoLonger(e.left, e.right, link);
      }
    } else {
      LeafNoLonger(e, link);
    }
  }

  /** What compiles for raw packets compiles for every framing, and on a frame its program ends as the raw program
      ends on the packet inside. */
  lemma ProgramInside(e: ExpandedExpr, link: LinkType, snaplen: u32, front: Bytes, packet: Bytes)
    requires InRange(e) && NetworkOnly(e) && IsFrame(link, front, packet)
    requires FitsAssembler(e, link) && FitsAssembler(e, Raw) && CompiledExpr(e, Raw, snaplen).Ok?
    ensures CompiledExpr(e, link, snaplen).Ok?
    ensures Ending(CompiledExpr(e, link, snaplen).value, front + packet) ==
            Ending(CompiledExpr(e, Raw, snaplen).value, packet)
  {
    SameErrors(e, link);
    CompilesWithinReach(e, Raw, snaplen);
    CompilesWithinReach(e, link, snaplen);
    JumpsNoLonger(e, link);
    NoLongerAt(e, link, 0, 1, 0, 1);
    SemanticPreservation(e, link, snaplen, front + packet);
    SemanticPreservation(e, Raw, snaplen, packet);
    MeaningInside(e, link, front, packet);
  }
}
