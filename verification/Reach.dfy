/** How far the conditional jumps of a decision's code reach, and so exactly when it can be assembled, and which
    jump is reported when it cannot. */
module Reach {
  import opened Words
  import opened Errors
  import opened Irep
  import opened Backpatch
  import opened Simulation
  import opened Decision
  import opened Labels
  import opened CodeSize

  // ----- decisions -----

  /** The longest conditional jump in the code of a decision whose exits lie this many instructions behind
      its end. */
  function LongestJump(c: Cond, toTrue: nat, toFalse: nat): nat {
    match c
    case Test(_, _, _, _) => Max(toTrue, toFalse)
    case Always(_) => 0
    case Negate(inner) => LongestJump(inner, toFalse, toTrue)
    case Both(l, r) => Max(LongestJump(l, 0, Cost(r) + toFalse), LongestJump(r, toTrue, toFalse))
    case Either(l, r) => Max(LongestJump(l, Cost(r) + toTrue, 0), LongestJump(r, toTrue, toFalse))
  }

  /** A conditional jump: the instruction it is, its length, and where it comes from in the source text. */
  datatype Jump = Jump(index: nat, length: nat, at: Span)

  function Earlier(first: Option<Jump>, second: Option<Jump>): Option<Jump> {
    if first.Some? then first else second
  }

  /** The first conditional jump longer than `bound` in the code of a decision that begins at instruction `base`,
      its true branch looked at before its false one. */
  function FirstLonger(c: Cond, base: nat, toTrue: nat, toFalse: nat, bound: nat): Option<Jump> {
    match c
    case Test(pre, _, _, at) =>
      if toTrue > bound then Some(Jump(base + |pre|, toTrue, at))
      else if toFalse > bound then Some(Jump(base + |pre|, toFalse, at))
      else None
    case Always(_) => None
    case Negate(inner) => FirstLonger(inner, base, toFalse, toTrue, bound)
    case Both(l, r) =>
      Earlier(FirstLonger(l, base, 0, Cost(r) + toFalse, bound), FirstLonger(r, base + Cost(l), toTrue, toFalse, bound))
    case Either(l, r) =>
      Earlier(FirstLonger(l, base, Cost(r) + toTrue, 0, bound), FirstLonger(r, base + Cost(l), toTrue, toFalse, bound))
  }

  /** There is such a jump exactly when the longest one is longer. */
  lemma {:induction false} LongestIsLonger(c: Cond, base: nat, toTrue: nat, toFalse: nat, bound: nat)
    ensures FirstLonger(c, base, toTrue, toFalse, bound).Some? <==> LongestJump(c, toTrue, toFalse) > bound
  {
    match c
    case Test(_, _, _, _) =>
    case Always(_) =>
    case Negate(inner) =>
      LongestIsLonger(inner, base, toFalse, toTrue, bound);
    case Both(l, r) =>
      LongestIsLonger(l, base, 0, Cost(r) + toFalse, bound);
      LongestIsLonger(r, base + Cost(l), toTrue, toFalse, bound);
    case Either(l, r) =>
      LongestIsLonger(l, base, Cost(r) + toTrue, 0, bound);
      LongestIsLonger(r, base + Cost(l), toTrue, toFalse, bound);
  }

  // ----- the jumps of a piece of code -----

  /** Where labels stand, in instructions. */
  type Places = Label -> int

  /** Instruction `idx` as a conditional jump longer than `bound`, if it is one. */
  function LongerAt(place: Places, idx: nat, insn: IrInsn, bound: nat): Option<Jump> {
    if !IsCond(insn.op) then None
    else if place(insn.op.jt) - idx - 1 > bound then Some(Jump(idx, place(insn.op.jt) - idx - 1, insn.at))
    else if place(insn.op.jf) - idx - 1 > bound then Some(Jump(idx, place(insn.op.jf) - idx - 1, insn.at))
    else None
  }

  /** The first such jump among these operations, standing from instruction `base` on. */
  function FirstFar(place: Places, base: nat, ops: seq<IrOp>, bound: nat): Option<Jump> {
    if ops == [] then None
    else
      var before, last := ops[..|ops| - 1], ops[|ops| - 1];
      Earlier(FirstFar(place, base, before, bound),
              if last.Real? then LongerAt(place, base + |Reals(before)|, last.insn, bound) else None)
  }

  /** Standing from instruction `base` on, the marks among these operations are where their labels are. */
  predicate MarksStand(place: Places, base: nat, ops: seq<IrOp>) {
    ops == [] ||
    var before, last := ops[..|ops| - 1], ops[|ops| - 1];
    MarksStand(place, base, before) && (last.Mark? ==> place(last.name) == base + |Reals(before)|)
  }

  lemma {:induction false} MarksJoin(place: Places, base: nat, a: seq<IrOp>, b: seq<IrOp>)
    ensures MarksStand(place, base, a + b) <==> MarksStand(place, base, a) && MarksStand(place, base + |Reals(a)|, b)
  {
    if b == [] {
      assert a + b == a;
    } else {
      var b' := b[..|b| - 1];
      MarksJoin(place, base, a, b');
      assert (a + b)[..|a + b| - 1] == a + b' && (a + b)[|a + b| - 1] == b[|b| - 1];
      RealsConcat(a, b');
    }
  }

  lemma {:induction false} PiecesJoin(place: Places, base: nat, a: seq<IrOp>, b: seq<IrOp>, bound: nat)
    ensures FirstFar(place, base, a + b, bound) ==
            Earlier(FirstFar(place, base, a, bound), FirstFar(place, base + |Reals(a)|, b, bound))
  {
    if b == [] {
      assert a + b == a;
    } else {
      var b' := b[..|b| - 1];
      PiecesJoin(place, base, a, b', bound);
      assert (a + b)[..|a + b| - 1] == a + b' && (a + b)[|a + b| - 1] == b[|b| - 1];
      RealsConcat(a, b');
    }
  }

  lemma MarkAlone(place: Places, base: nat, mid: Label, bound: nat)
    ensures Reals([Mark(mid)]) == [] && FirstFar(place, base, [Mark(mid)], bound) == None
    ensures MarksStand(place, base, [Mark(mid)]) <==> place(mid) == base
  {
    assert [Mark(mid)][..0] == [];
  }

  lemma {:induction false} LoadsAreNear(place: Places, base: nat, pre: seq<IrOp2>, at: Span, bound: nat)
    requires Straight(pre)
    ensures FirstFar(place, base, RealOps(pre, at), bound) == None
  {
    if pre != [] {
      var before := pre[..|pre| - 1];
      LoadsAreNear(place, base, before, at, bound);
      assert RealOps(pre, at)[..|pre| - 1] == RealOps(before, at);
      assert IsStraight(pre[|pre| - 1]);
    }
  }

  /** This is the first jump longer than `bound` of these operations. */
  ghost predicate Measured(place: Places, base: nat, ops: seq<IrOp>, bound: nat, first: Option<Jump>) {
    FirstFar(place, base, ops, bound) == first
  }

  /** The marks of two pieces, and the mark between them. */
  lemma SidesStand(place: Places, base: nat, a: seq<IrOp>, mid: Label, b: seq<IrOp>)
    requires MarksStand(place, base, a + [Mark(mid)] + b)
    ensures MarksStand(place, base, a) && place(mid) == base + |Reals(a)| && MarksStand(place, base + |Reals(a)|, b)
  {
    MarksJoin(place, base, a + [Mark(mid)], b);
    MarksJoin(place, base, a, [Mark(mid)]);
    MarkAlone(place, base + |Reals(a)|, mid, 0);
    RealsConcat(a, [Mark(mid)]);
  }

  lemma SidesMeasured(place: Places, base: nat, a: seq<IrOp>, first: Option<Jump>, mid: Label, b: seq<IrOp>,
        second: Option<Jump>, bound: nat)
    requires Measured(place, base, a, bound, first) && Measured(place, base + |Reals(a)|, b, bound, second)
    ensures Measured(place, base, a + [Mark(mid)] + b, bound, Earlier(first, second))
  {
    PiecesJoin(place, base, a + [Mark(mid)], b, bound);
    PiecesJoin(place, base, a, [Mark(mid)], bound);
    MarkAlone(place, base + |Reals(a)|, mid, bound);
    RealsConcat(a, [Mark(mid)]);
  }

  /** The same with code on the left, said by its cost. */
  lemma CodeStands(place: Places, base: nat, l: Cond, n: nat, t1: Label, f1: Label, b: seq<IrOp>)
    requires MarksStand(place, base, Lower(l, n + 1, t1, f1).ops + [Mark(Label(n))] + b)
    ensures MarksStand(place, base, Lower(l, n + 1, t1, f1).ops) && place(Label(n)) == base + Cost(l)
    ensures MarksStand(place, base + Cost(l), b)
  {
    LowerCost(l, n + 1, t1, f1);
    SidesStand(place, base, Lower(l, n + 1, t1, f1).ops, Label(n), b);
  }

  lemma CodeMeasured(place: Places, base: nat, l: Cond, n: nat, t1: Label, f1: Label, first: Option<Jump>,
        b: seq<IrOp>, second: Option<Jump>, bound: nat)
    requires Measured(place, base, Lower(l, n + 1, t1, f1).ops, bound, first)
    requires Measured(place, base + Cost(l), b, bound, second)
    ensures Measured(place, base, Lower(l, n + 1, t1, f1).ops + [Mark(Label(n))] + b, bound, Earlier(first, second))
  {
    LowerCost(l, n + 1, t1, f1);
    SidesMeasured(place, base, Lower(l, n + 1, t1, f1).ops, first, Label(n), b, second, bound);
  }

  lemma TestReach(place: Places, base: nat, c: Cond, n: nat, t: Label, f: Label, toTrue: nat, toFalse: nat,
        bound: nat)
    requires c.Test? && WellFormed(c)
    requires place(t) == base + Cost(c) + toTrue && place(f) == base + Cost(c) + toFalse
    ensures Measured(place, base, Lower(c, n, t, f).ops, bound, FirstLonger(c, base, toTrue, toFalse, bound))
  {
    var loads, jump := RealOps(c.pre, c.at), Real(IrInsn(CondJump(c.cmp, c.imm, t, f), c.at));
    LoadsAreNear(place, base, c.pre, c.at, bound);
    RealsOfReals(loads);
    assert (loads + [jump])[..|loads|] == loads;
    assert LongerAt(place, base + |loads|, jump.insn, bound) == FirstLonger(c, base, toTrue, toFalse, bound);
  }

  lemma AlwaysReach(place: Places, base: nat, at: Span, n: nat, t: Label, f: Label, bound: nat)
    ensures Measured(place, base, Lower(Always(at), n, t, f).ops, bound, None)
  {
    assert [Real(IrInsn(Jmp(t), at))][..0] == [];
  }

  /** Every exit and every label of its own standing where it belongs, the first conditional jump longer than
      `bound` in the code of a decision, whatever `bound` is, is the one computed from the decision alone. */
  lemma {:induction false} FragmentReach(place: Places, base: nat, c: Cond, n: nat, t: Label, f: Label, toTrue: nat,
        toFalse: nat, bound: nat)
    requires WellFormed(c) && MarksStand(place, base, Lower(c, n, t, f).ops)
    requires place(t) == base + Cost(c) + toTrue && place(f) == base + Cost(c) + toFalse
    ensures Measured(place, base, Lower(c, n, t, f).ops, bound, FirstLonger(c, base, toTrue, toFalse, bound))
    decreases Nodes(c), 1
  {
    match c
    case Test(_, _, _, _) =>
      TestReach(place, base, c, n, t, f, toTrue, toFalse, bound);
    case Always(at) =>
      AlwaysReach(place, base, at, n, t, f, bound);
    case Negate(inner) =>
      FragmentReach(place, base, inner, n, f, t, toFalse, toTrue, bound);
    case Both(_, _) =>
      BothSides(place, base, c, n, t, f, toTrue, toFalse, bound);
      BothJoins(place, base, c, n, t, f, toTrue, toFalse, bound);
    case Either(_, _) =>
      EitherSides(place, base, c, n, t, f, toTrue, toFalse, bound);
      EitherJoins(place, base, c, n, t, f, toTrue, toFalse, bound);
  }

  /** The label between the sides is the left side's true exit; its false exit lies past the right side. */
  lemma {:induction false} BothSides(place: Places, base: nat, c: Cond, n: nat, t: Label, f: Label, toTrue: nat,
        toFalse: nat, bound: nat)
    requires c.Both? && WellFormed(c) && MarksStand(place, base, Lower(c, n, t, f).ops)
    requires place(t) == base + Cost(c) + toTrue && place(f) == base + Cost(c) + toFalse
    ensures var first := Lower(c.left, n + 1, Label(n), f);
            && Measured(place, base, first.ops, bound, FirstLonger(c.left, base, 0, Cost(c.right) + toFalse, bound))
            && Measured(place, base + Cost(c.left), Lower(c.right, first.next, t, f).ops, bound,
                        FirstLonger(c.right, base + Cost(c.left), toTrue, toFalse, bound))
    decreases Nodes(c), 0
  {
    var first := Lower(c.left, n + 1, Label(n), f);
    var second := Lower(c.right, first.next, t, f);
    CodeStands(place, base, c.left, n, Label(n), f, second.ops);
    FragmentReach(place, base, c.left, n + 1, Label(n), f, 0, Cost(c.right) + toFalse, bound);
    FragmentReach(place, base + Cost(c.left), c.right, first.next, t, f, toTrue, toFalse, bound);
  }

  lemma BothUnfolds(c: Cond, base: nat, n: nat, t: Label, f: Label, toTrue: nat, toFalse: nat, bound: nat)
    requires c.Both?
    ensures var first := Lower(c.left, n + 1, Label(n), f);
            Lower(c, n, t, f).ops == first.ops + [Mark(Label(n))] + Lower(c.right, first.next, t, f).ops
    ensures FirstLonger(c, base, toTrue, toFalse, bound) ==
            Earlier(FirstLonger(c.left, base, 0, Cost(c.right) + toFalse, bound),
                    FirstLonger(c.right, base + Cost(c.left), toTrue, toFalse, bound))
  {
  }

  lemma BothJoins(place: Places, base: nat, c: Cond, n: nat, t: Label, f: Label, toTrue: nat, toFalse: nat,
        bound: nat)
    requires c.Both?
    requires var first := Lower(c.left, n + 1, Label(n), f);
             && Measured(place, base, first.ops, bound, FirstLonger(c.left, base, 0, Cost(c.right) + toFalse, bound))
             && Measured(place, base + Cost(c.left), Lower(c.right, first.next, t, f).ops, bound,
                         FirstLonger(c.right, base + Cost(c.left), toTrue, toFalse, bound))
    ensures Measured(place, base, Lower(c, n, t, f).ops, bound, FirstLonger(c, base, toTrue, toFalse, bound))
  {
    var first := Lower(c.left, n + 1, Label(n), f);
    var second := Lower(c.right, first.next, t, f);
    BothUnfolds(c, base, n, t, f, toTrue, toFalse, bound);
    CodeMeasured(place, base, c.left, n, Label(n), f, FirstLonger(c.left, base, 0, Cost(c.right) + toFalse, bound),
                 second.ops, FirstLonger(c.right, base + Cost(c.left), toTrue, toFalse, bound), bound);
  }

  /** The label between the sides is the left side's false exit; its true exit lies past the right side. */
  lemma {:induction false} EitherSides(place: Places, base: nat, c: Cond, n: nat, t: Label, f: Label, toTrue: nat,
        toFalse: nat, bound: nat)
    requires c.Either? && WellFormed(c) && MarksStand(place, base, Lower(c, n, t, f).ops)
    requires place(t) == base + Cost(c) + toTrue && place(f) == base + Cost(c) + toFalse
    ensures var first := Lower(c.left, n + 1, t, Label(n));
            && Measured(place, base, first.ops, bound, FirstLonger(c.left, base, Cost(c.right) + toTrue, 0, bound))
            && Measured(place, base + Cost(c.left), Lower(c.right, first.next, t, f).ops, bound,
                        FirstLonger(c.right, base + Cost(c.left), toTrue, toFalse, bound))
    decreases Nodes(c), 0
  {
    var first := Lower(c.left, n + 1, t, Label(n));
    var second := Lower(c.right, first.next, t, f);
    CodeStands(place, base, c.left, n, t, Label(n), second.ops);
    FragmentReach(place, base, c.left, n + 1, t, Label(n), Cost(c.right) + toTrue, 0, bound);
    FragmentReach(place, base + Cost(c.left), c.right, first.next, t, f, toTrue, toFalse, bound);
  }

  lemma EitherUnfolds(c: Cond, base: nat, n: nat, t: Label, f: Label, toTrue: nat, toFalse: nat, bound: nat)
    requires c.Either?
    ensures var first := Lower(c.left, n + 1, t, Label(n));
            Lower(c, n, t, f).ops == first.ops + [Mark(Label(n))] + Lower(c.right, first.next, t, f).ops
    ensures FirstLonger(c, base, toTrue, toFalse, bound) ==
            Earlier(FirstLonger(c.left, base, Cost(c.right) + toTrue, 0, bound),
                    FirstLonger(c.right, base + Cost(c.left), toTrue, toFalse, bound))
  {
  }

  lemma EitherJoins(place: Places, base: nat, c: Cond, n: nat, t: Label, f: Label, toTrue: nat, toFalse: nat,
        bound: nat)
    requires c.Either?
    requires var first := Lower(c.left, n + 1, t, Label(n));
             && Measured(place, base, first.ops, bound, FirstLonger(c.left, base, Cost(c.right) + toTrue, 0, bound))
             && Measured(place, base + Cost(c.left), Lower(c.right, first.next, t, f).ops, bound,
                         FirstLonger(c.right, base + Cost(c.left), toTrue, toFalse, bound))
    ensures Measured(place, base, Lower(c, n, t, f).ops, bound, FirstLonger(c, base, toTrue, toFalse, bound))
  {
    var first := Lower(c.left, n + 1, t, Label(n));
    var second := Lower(c.right, first.next, t, f);
    EitherUnfolds(c, base, n, t, f, toTrue, toFalse, bound);
    CodeMeasured(place, base, c.left, n, t, Label(n), FirstLonger(c.left, base, Cost(c.right) + toTrue, 0, bound),
                 second.ops, FirstLonger(c.right, base + Cost(c.left), toTrue, toFalse, bound), bound);
  }

  // ----- whole programs -----

  /** The places of a stream's labels. */
  function PlacesOf(s: seq<IrOp>): Places {
    (name: Label) => match OffsetOf(s, name) case Some(v) => v case None => 0
  }

  lemma {:induction false} AllMarksStand(p: IrProgram, j: nat)
    requires WellPlaced(p.stream, p.numLabels) && j <= |p.stream|
    ensures MarksStand(PlacesOf(p.stream), 0, p.stream[..j])
  {
    if j > 0 {
      AllMarksStand(p, j - 1);
      assert p.stream[..j][..j - 1] == p.stream[..j - 1];
      if p.stream[j - 1].Mark? {
        OffsetOfMark(p.stream, j - 1, p.stream[j - 1].name);
      }
    }
  }

  /** The returns stand right behind the code, the accepting one first. */
  lemma ReturnsStand(place: Places, ops: seq<IrOp>, snaplen: u32)
    requires MarksStand(place, 0, ops + Returns(snaplen))
    ensures place(Label(0)) == |Reals(ops)| && place(Label(1)) == |Reals(ops)| + 1
    ensures MarksStand(place, 0, ops)
  {
    var accept, reject := Real(IrInsn(Ret(snaplen), Span(0, 0))), Real(IrInsn(Ret(0), Span(0, 0)));
    var n := |Reals(ops)|;
    assert Returns(snaplen) == [Mark(Label(0)), accept] + [Mark(Label(1)), reject];
    MarksJoin(place, 0, ops, Returns(snaplen));
    MarksJoin(place, n, [Mark(Label(0)), accept], [Mark(Label(1)), reject]);
    OneReturn(place, n, Label(0), accept, 0);
    OneReturn(place, n + 1, Label(1), reject, 0);
  }

  /** They jump nowhere. */
  lemma ReturnsAreNear(place: Places, ops: seq<IrOp>, snaplen: u32, bound: nat)
    ensures FirstFar(place, 0, ops + Returns(snaplen), bound) == FirstFar(place, 0, ops, bound)
  {
    var accept, reject := Real(IrInsn(Ret(snaplen), Span(0, 0))), Real(IrInsn(Ret(0), Span(0, 0)));
    var n := |Reals(ops)|;
    PiecesJoin(place, 0, ops, Returns(snaplen), bound);
    assert Returns(snaplen) == [Mark(Label(0)), accept] + [Mark(Label(1)), reject];
    PiecesJoin(place, n, [Mark(Label(0)), accept], [Mark(Label(1)), reject], bound);
    OneReturn(place, n, Label(0), accept, bound);
    OneReturn(place, n + 1, Label(1), reject, bound);
  }

  lemma OneReturn(place: Places, base: nat, name: Label, op: IrOp, bound: nat)
    requires op.Real? && op.insn.op.Ret?
    ensures Reals([Mark(name), op]) == [op.insn] && FirstFar(place, base, [Mark(name), op], bound) == None
    ensures MarksStand(place, base, [Mark(name), op]) <==> place(name) == base
  {
    assert [Mark(name), op] == [Mark(name)] + [op];
    MarksJoin(place, base, [Mark(name)], [op]);
    PiecesJoin(place, base, [Mark(name)], [op], bound);
    MarkAlone(place, base, name, bound);
    RealAlone(place, base, op, bound);
    RealsConcat([Mark(name)], [op]);
  }

  lemma RealAlone(place: Places, base: nat, op: IrOp, bound: nat)
    requires op.Real? && op.insn.op.Ret?
    ensures Reals([op]) == [op.insn] && FirstFar(place, base, [op], bound) == None && MarksStand(place, base, [op])
  {
    assert [op][..0] == [];
  }

  /** What the first jump longer than `bound` is among the instructions of a piece of code. */
  lemma {:induction false} FirstFarMeans(place: Places, ops: seq<IrOp>, bound: nat)
    ensures var first := FirstFar(place, 0, ops, bound);
            if first.None? then forall i :: 0 <= i < |Reals(ops)| ==> LongerAt(place, i, Reals(ops)[i], bound) == None
            else first.value.index < |Reals(ops)| &&
                 LongerAt(place, first.value.index, Reals(ops)[first.value.index], bound) == first &&
                 forall i :: 0 <= i < first.value.index ==> LongerAt(place, i, Reals(ops)[i], bound) == None
  {
    if ops != [] {
      var before, last := ops[..|ops| - 1], ops[|ops| - 1];
      FirstFarMeans(place, before, bound);
      assert forall i :: 0 <= i < |Reals(before)| ==> Reals(ops)[i] == Reals(before)[i];
      if last.Real? {
        assert Reals(ops)[|Reals(before)|] == last.insn;
      }
    }
  }

  /** Instruction `idx` is a conditional jump longer than `bound`. */
  ghost predicate LongerThan(p: IrProgram, idx: nat, bound: nat)
    requires Resolvable(p) && idx < |Reals(p.stream)|
  {
    var op := Reals(p.stream)[idx].op;
    IsCond(op) && (JumpLength(p, idx, op.jt) > bound || JumpLength(p, idx, op.jf) > bound)
  }

  ghost predicate AnyLonger(p: IrProgram, bound: nat)
    requires Resolvable(p)
  {
    exists i :: 0 <= i < |Reals(p.stream)| && LongerThan(p, i, bound)
  }

  /** This jump is the first of the program longer than `bound`, and how long it is, the true branch if that is
      too long and otherwise the false one. */
  ghost predicate IsFirstLonger(p: IrProgram, jump: Jump, bound: nat)
    requires Resolvable(p)
  {
    && jump.index < |Reals(p.stream)|
    && LongerThan(p, jump.index, bound)
    && (forall i :: 0 <= i < jump.index ==> !LongerThan(p, i, bound))
    && var insn := Reals(p.stream)[jump.index];
    && jump.at == insn.at
    && jump.length == (if JumpLength(p, jump.index, insn.op.jt) > bound then JumpLength(p, jump.index, insn.op.jt)
                       else JumpLength(p, jump.index, insn.op.jf))
  }

  lemma LongerHere(p: IrProgram, idx: nat, bound: nat)
    requires Resolvable(p) && idx < |Reals(p.stream)|
    ensures var found, op := LongerAt(PlacesOf(p.stream), idx, Reals(p.stream)[idx], bound), Reals(p.stream)[idx].op;
            && (LongerThan(p, idx, bound) <==> found.Some?)
            && (found.Some? ==>
                  found.value == Jump(idx, if JumpLength(p, idx, op.jt) > bound then JumpLength(p, idx, op.jt)
                                           else JumpLength(p, idx, op.jf), Reals(p.stream)[idx].at))
  {
    var op := Reals(p.stream)[idx].op;
    if IsCond(op) {
      assert op.jt in Targets(op) && op.jf in Targets(op);
      assert Ahead(idx, op.jt, Offsets(p)) && Ahead(idx, op.jf, Offsets(p));
    }
  }

  /** The first jump of a whole program that is longer than `bound`, for every `bound`. */
  lemma FirstOfProgram(c: Cond, snaplen: u32, bound: nat)
    requires WellFormed(c) && Resolvable(Wrapped(c, snaplen))
    ensures var p, first := Wrapped(c, snaplen), FirstLonger(c, 0, 0, 1, bound);
            if first.Some? then IsFirstLonger(p, first.value, bound)
            else forall i :: 0 <= i < |Reals(p.stream)| ==> !LongerThan(p, i, bound)
  {
    var p, ops := Wrapped(c, snaplen), Lower(c, 2, Label(0), Label(1)).ops;
    var place := PlacesOf(p.stream);
    FirstOfStream(c, snaplen, bound);
    FirstFarMeans(place, p.stream, bound);
    forall i | 0 <= i < |Reals(p.stream)|
      ensures LongerThan(p, i, bound) <==> LongerAt(place, i, Reals(p.stream)[i], bound).Some?
    {
      LongerHere(p, i, bound);
    }
    var first := FirstLonger(c, 0, 0, 1, bound);
    if first.Some? {
      LongerHere(p, first.value.index, bound);
    }
  }

  lemma FirstOfStream(c: Cond, snaplen: u32, bound: nat)
    requires WellFormed(c) && Resolvable(Wrapped(c, snaplen))
    ensures var s := Wrapped(c, snaplen).stream;
            FirstFar(PlacesOf(s), 0, s, bound) == FirstLonger(c, 0, 0, 1, bound)
  {
    var p, ops := Wrapped(c, snaplen), Lower(c, 2, Label(0), Label(1)).ops;
    var place := PlacesOf(p.stream);
    LabelProtocol(c, snaplen);
    AllMarksStand(p, |p.stream|);
    assert p.stream[..|p.stream|] == p.stream == ops + Returns(snaplen);
    LowerCost(c, 2, Label(0), Label(1));
    ReturnsStand(place, ops, snaplen);
    ReturnsAreNear(place, ops, snaplen, bound);
    FragmentReach(place, 0, c, 2, Label(0), Label(1), 0, 1, bound);
  }

  /** The number is the length of the longest conditional jump: for every bound, some jump of the program is
      longer if and only if it is. */
  lemma LongestOfProgram(c: Cond, snaplen: u32, bound: nat)
    requires WellFormed(c) && Resolvable(Wrapped(c, snaplen))
    ensures AnyLonger(Wrapped(c, snaplen), bound) <==> LongestJump(c, 0, 1) > bound
  {
    FirstOfProgram(c, snaplen, bound);
    LongestIsLonger(c, 0, 0, 1, bound);
  }

  /** A whole program can be assembled exactly when no conditional jump reaches further than 255. */
  lemma AssemblesWithinReach(c: Cond, snaplen: u32)
    requires WellFormed(c) && Resolvable(Wrapped(c, snaplen))
    ensures Assembled(Wrapped(c, snaplen)).Ok? <==> LongestJump(c, 0, 1) <= 255
  {
    var p := Wrapped(c, snaplen);
    OverflowIsExact(p);
    LongestOfProgram(c, snaplen, 255);
    assert forall i :: 0 <= i < |Reals(p.stream)| ==> (TooFar(p, i) <==> LongerThan(p, i, 255));
  }

  /** The error reports this jump. */
  predicate Reports(error: CompileError, jump: Jump) {
    && error.at == jump.at
    && error.tag.JumpDisplacementOverflow?
    && error.tag.instIndex == jump.index
    && error.tag.displacement == jump.length
  }

  /** Otherwise the error is the first jump that does, computed from the decision alone. */
  lemma OverflowReported(c: Cond, snaplen: u32)
    requires WellFormed(c) && Resolvable(Wrapped(c, snaplen)) && Assembled(Wrapped(c, snaplen)).Err?
    ensures var first := FirstLonger(c, 0, 0, 1, 255);
            first.Some? && Reports(Assembled(Wrapped(c, snaplen)).error, first.value)
  {
    var p := Wrapped(c, snaplen);
    OverflowIsExact(p);
    FirstOfProgram(c, snaplen, 255);
    var i :| 0 <= i < |Reals(p.stream)| && ReportsOverflow(p, i, Assembled(p).error) &&
             forall j :: 0 <= j < i ==> !TooFar(p, j);
    assert forall j :: 0 <= j < |Reals(p.stream)| ==> (TooFar(p, j) <==> LongerThan(p, j, 255));
  }
}
