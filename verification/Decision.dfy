/** Decisions: what a filter's code decides, and the code that decides it.

    Everything the code generator emits is a short-circuit combination of tests, each test being some
    loads followed by one conditional jump. `Decide` gives the outcome of a combination on a packet;
    `Lower` gives its code in continuation-passing style, one label pair in, fresh labels numbered from
    `n`. The emitting methods are proved to append exactly this code, and the theorems about it are
    proved here once, for every combination. */
module Decision {
  import opened Words
  import opened Errors
  import opened Vm
  import opened Irep

  datatype Cmp = Eq | Gt | Ge | Set

  datatype Cond =
    | Test(pre: seq<IrOp2>, cmp: Cmp, imm: u32, at: Span)
    | Always(at: Span)
    | Negate(inner: Cond)
    | Both(left: Cond, right: Cond)
    | Either(left: Cond, right: Cond)

  datatype Outcome = Abort | Goes(holds: bool, regs: Regs)

  predicate Straight(pre: seq<IrOp2>) {
    forall i :: 0 <= i < |pre| ==> IsStraight(pre[i])
  }

  predicate WellFormed(c: Cond) {
    match c
    case Test(pre, _, _, _) => Straight(pre)
    case Always(_) => true
    case Negate(inner) => WellFormed(inner)
    case Both(l, r) => WellFormed(l) && WellFormed(r)
    case Either(l, r) => WellFormed(l) && WellFormed(r)
  }

  /** How many nodes a decision has: the measure of inductions over it. */
  ghost function Nodes(c: Cond): nat {
    match c
    case Test(_, _, _, _) => 1
    case Always(_) => 1
    case Negate(inner) => Nodes(inner) + 1
    case Both(l, r) => Nodes(l) + Nodes(r) + 1
    case Either(l, r) => Nodes(l) + Nodes(r) + 1
  }

  predicate Compare(cmp: Cmp, a: u32, imm: u32) {
    match cmp
    case Eq => a == imm
    case Gt => a > imm
    case Ge => a >= imm
    case Set => BitAnd(a, imm) != 0
  }

  /** The registers after a run of loads; `None` when one of them is out of bounds. */
  function Loads(pre: seq<IrOp2>, r: Regs, packet: Bytes): Option<Regs>
    requires Straight(pre)
  {
    if pre == [] then Some(r)
    else match Load(MachineOp(pre[0]), r, packet)
      case Some(r') => Loads(pre[1..], r', packet)
      case None => None
  }

  function Decide(c: Cond, r: Regs, packet: Bytes): Outcome
    requires WellFormed(c)
  {
    match c
    case Test(pre, cmp, imm, _) =>
      (match Loads(pre, r, packet)
       case Some(r') => Goes(Compare(cmp, r'.a, imm), r')
       case None => Abort)
    case Always(_) => Goes(true, r)
    case Negate(inner) =>
      (match Decide(inner, r, packet)
       case Goes(b, r') => Goes(!b, r')
       case Abort => Abort)
    case Both(left, right) =>
      (match Decide(left, r, packet)
       case Goes(true, r') => Decide(right, r', packet)
       case other => other)
    case Either(left, right) =>
      (match Decide(left, r, packet)
       case Goes(false, r') => Decide(right, r', packet)
       case other => other)
  }

  // ----- code -----

  /** Emitted operations, and the first label number still unused after them. */
  datatype Code = Code(ops: seq<IrOp>, next: nat)

  function CondJump(cmp: Cmp, imm: u32, t: Label, f: Label): IrOp2 {
    match cmp
    case Eq => Jeq(imm, t, f)
    case Gt => Jgt(imm, t, f)
    case Ge => Jge(imm, t, f)
    case Set => Jset(imm, t, f)
  }

  function RealOps(pre: seq<IrOp2>, at: Span): seq<IrOp> {
    seq(|pre|, i requires 0 <= i < |pre| => Real(IrInsn(pre[i], at)))
  }

  function Lower(c: Cond, n: nat, t: Label, f: Label): (code: Code)
    ensures code.next >= n
  {
    match c
    case Test(pre, cmp, imm, at) =>
      Code(RealOps(pre, at) + [Real(IrInsn(CondJump(cmp, imm, t, f), at))], n)
    case Always(at) =>
      Code([Real(IrInsn(Jmp(t), at))], n)
    case Negate(inner) =>
      Lower(inner, n, f, t)
    case Both(left, right) =>
      var first := Lower(left, n + 1, Label(n), f);
      var second := Lower(right, first.next, t, f);
      Code(first.ops + [Mark(Label(n))] + second.ops, second.next)
    case Either(left, right) =>
      var first := Lower(left, n + 1, t, Label(n));
      var second := Lower(right, first.next, t, f);
      Code(first.ops + [Mark(Label(n))] + second.ops, second.next)
  }

  // ----- the fragment theorem -----

  /** Labels a fragment does not allocate are sought behind it. */
  lemma {:induction false} SeekPast(c: Cond, n: nat, t: Label, f: Label, rest: seq<IrOp>, l: Label)
    requires l.id < n || l.id >= Lower(c, n, t, f).next
    ensures Seek(Lower(c, n, t, f).ops + rest, l) == Seek(rest, l)
    decreases Nodes(c), 1
  {
    match c
    case Test(pre, cmp, imm, at) =>
      SeekReals(RealOps(pre, at) + [Real(IrInsn(CondJump(cmp, imm, t, f), at))], rest, l);
    case Always(at) =>
      SeekReals([Real(IrInsn(Jmp(t), at))], rest, l);
    case Negate(inner) =>
      SeekPast(inner, n, f, t, rest, l);
    case Both(left, right) =>
      SeekPastPair(left, right, n, Label(n), f, t, f, rest, l);
    case Either(left, right) =>
      SeekPastPair(left, right, n, t, Label(n), t, f, rest, l);
  }

  lemma {:induction false} SeekPastPair(left: Cond, right: Cond, n: nat, t1: Label, f1: Label, t2: Label, f2: Label,
                                        rest: seq<IrOp>, l: Label)
    requires var first := Lower(left, n + 1, t1, f1);
             l.id < n || l.id >= Lower(right, first.next, t2, f2).next
    ensures var first := Lower(left, n + 1, t1, f1);
            var second := Lower(right, first.next, t2, f2);
            Seek(first.ops + [Mark(Label(n))] + second.ops + rest, l) == Seek(rest, l)
    decreases Nodes(left) + Nodes(right) + 1, 0
  {
    var first := Lower(left, n + 1, t1, f1);
    var second := Lower(right, first.next, t2, f2);
    Regroup(first.ops, Label(n), second.ops, rest);
    SeekPast(left, n + 1, t1, f1, [Mark(Label(n))] + (second.ops + rest), l);
    SeekMarked(Label(n), second.ops + rest, l);
    SeekPast(right, first.next, t2, f2, rest, l);
  }

  lemma {:induction false} SeekReals(ops: seq<IrOp>, rest: seq<IrOp>, l: Label)
    requires forall i :: 0 <= i < |ops| ==> ops[i].Real?
    ensures Seek(ops + rest, l) == Seek(rest, l)
  {
    if ops == [] {
      assert ops + rest == rest;
    } else {
      assert (ops + rest)[1..] == ops[1..] + rest;
      SeekReals(ops[1..], rest, l);
    }
  }

  lemma {:induction false} RunLoads(pre: seq<IrOp2>, at: Span, rest: seq<IrOp>, r: Regs, packet: Bytes)
    requires Straight(pre)
    ensures RunIr(RealOps(pre, at) + rest, r, packet) ==
            match Loads(pre, r, packet)
            case Some(r') => RunIr(rest, r', packet)
            case None => BadLoad
  {
    if pre == [] {
      assert RealOps(pre, at) + rest == rest;
    } else {
      assert (RealOps(pre, at) + rest)[1..] == RealOps(pre[1..], at) + rest;
      var next := Load(MachineOp(pre[0]), r, packet);
      if next.Some? {
        RunLoads(pre[1..], at, rest, next.value, packet);
      }
    }
  }

  /** Where control goes from a fragment with exits `t` and `f` and the code `rest` behind it. */
  function Leaves(o: Outcome, t: Label, f: Label, rest: seq<IrOp>, packet: Bytes): Stop {
    match o
    case Goes(b, r) => RunIr(Seek(rest, if b then t else f), r, packet)
    case Abort => BadLoad
  }

  lemma TestCorrect(pre: seq<IrOp2>, cmp: Cmp, imm: u32, at: Span, t: Label, f: Label, rest: seq<IrOp>, r: Regs,
        packet: Bytes)
    requires Straight(pre)
    ensures RunIr(RealOps(pre, at) + [Real(IrInsn(CondJump(cmp, imm, t, f), at))] + rest, r, packet) ==
            Leaves(Decide(Test(pre, cmp, imm, at), r, packet), t, f, rest, packet)
  {
    var jump := [Real(IrInsn(CondJump(cmp, imm, t, f), at))];
    assert RealOps(pre, at) + jump + rest == RealOps(pre, at) + (jump + rest);
    RunLoads(pre, at, jump + rest, r, packet);
    assert (jump + rest)[1..] == rest;
  }

  /** The fragment theorem: from any registers, and whatever code follows, the code of a decision goes
      to its true label, to its false label, or stops at a load out of bounds, as the decision says. */
  lemma {:induction false} FragmentCorrect(c: Cond, n: nat, t: Label, f: Label, rest: seq<IrOp>, r: Regs, packet: Bytes)
    requires WellFormed(c)
    requires t.id < n && f.id < n
    ensures RunIr(Lower(c, n, t, f).ops + rest, r, packet) == Leaves(Decide(c, r, packet), t, f, rest, packet)
    decreases Nodes(c), 1
  {
    match c
    case Test(pre, cmp, imm, at) =>
      TestCorrect(pre, cmp, imm, at, t, f, rest, r, packet);
    case Always(at) =>
      assert (Lower(c, n, t, f).ops + rest)[1..] == rest;
    case Negate(inner) =>
      FragmentCorrect(inner, n, f, t, rest, r, packet);
    case Both(left, right) =>
      PairCorrect(left, right, n, true, t, f, rest, r, packet);
    case Either(left, right) =>
      PairCorrect(left, right, n, false, t, f, rest, r, packet);
  }

  /** The two-sided case: `goOn` is the outcome of the left side that leads on to the right side. */
  lemma {:induction false} PairCorrect(left: Cond, right: Cond, n: nat, goOn: bool, t: Label, f: Label,
                                       rest: seq<IrOp>, r: Regs, packet: Bytes)
    requires WellFormed(left) && WellFormed(right)
    requires t.id < n && f.id < n
    ensures var mid := Label(n);
            var first := Lower(left, n + 1, if goOn then mid else t, if goOn then f else mid);
            var second := Lower(right, first.next, t, f);
            RunIr(first.ops + [Mark(mid)] + second.ops + rest, r, packet) ==
            match Decide(left, r, packet)
            case Goes(b, r') =>
              if b == goOn then Leaves(Decide(right, r', packet), t, f, rest, packet)
              else Leaves(Goes(b, r'), t, f, rest, packet)
            case Abort => BadLoad
    decreases Nodes(left) + Nodes(right) + 1, 0
  {
    var mid := Label(n);
    var t1, f1 := if goOn then mid else t, if goOn then f else mid;
    var first := Lower(left, n + 1, t1, f1);
    var second := Lower(right, first.next, t, f);
    var tail := [Mark(mid)] + (second.ops + rest);
    Regroup(first.ops, mid, second.ops, rest);
    FragmentCorrect(left, n + 1, t1, f1, tail, r, packet);
    var o := Decide(left, r, packet);
    if o.Goes? {
      SeekMarked(mid, second.ops + rest, if o.holds then t1 else f1);
      if o.holds == goOn {
        FragmentCorrect(right, first.next, t, f, rest, o.regs, packet);
      } else {
        SeekPast(right, first.next, t, f, rest, if goOn then f else t);
      }
    }
  }

  lemma Regroup(s: seq<IrOp>, mid: Label, u: seq<IrOp>, v: seq<IrOp>)
    ensures s + [Mark(mid)] + u + v == s + ([Mark(mid)] + (u + v))
  {
  }

  lemma SeekMarked(mid: Label, s: seq<IrOp>, l: Label)
    ensures Seek([Mark(mid)] + s, l) == if l == mid then s else Seek(s, l)
  {
    assert ([Mark(mid)] + s)[1..] == s;
  }
}
