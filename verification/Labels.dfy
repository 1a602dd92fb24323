/** The label protocol: every label a decision's code allocates is placed once, behind every jump that
    names it. */
module Labels {
  import opened Words
  import opened Errors
  import opened Vm
  import opened Irep
  import opened Decision

  ghost predicate Marked(s: seq<IrOp>, l: Label) {
    exists j :: 0 <= j < |s| && s[j] == Mark(l)
  }

  /** The protocol for a fragment that allocates the labels `n` up to `next` and exits to `t` and `f`. */
  ghost predicate Disciplined(s: seq<IrOp>, n: nat, next: nat, t: Label, f: Label) {
    && MarksWithin(s, n, next)
    && MarksDistinct(s)
    && (forall id :: n <= id < next ==> Marked(s, Label(id)))
    && (forall i, l :: 0 <= i < |s| && s[i].Real? && l in Targets(s[i].insn.op) ==>
          l == t || l == f || MarkedAfter(s, i, l))
  }

  ghost predicate MarksWithin(s: seq<IrOp>, n: nat, next: nat) {
    forall i :: 0 <= i < |s| && s[i].Mark? ==> n <= s[i].name.id < next
  }

  ghost predicate MarksDistinct(s: seq<IrOp>) {
    forall i, j :: 0 <= i < j < |s| && s[i].Mark? && s[j].Mark? ==> s[i].name != s[j].name
  }

  /** The protocol holds of the code of every decision. */
  lemma {:induction false} LowerDisciplined(c: Cond, n: nat, t: Label, f: Label)
    requires WellFormed(c) && t.id < n && f.id < n
    ensures Disciplined(Lower(c, n, t, f).ops, n, Lower(c, n, t, f).next, t, f)
    decreases c
  {
    match c
    case Test(pre, cmp, imm, at) =>
      assert forall i :: 0 <= i < |pre| ==> IsStraight(pre[i]);
    case Always(at) =>
    case Negate(inner) =>
      LowerDisciplined(inner, n, f, t);
    case Both(left, right) =>
      LowerDisciplined(left, n + 1, Label(n), f);
      LowerDisciplined(right, Lower(left, n + 1, Label(n), f).next, t, f);
      PairDisciplined(left, right, n, Label(n), f, t, f);
    case Either(left, right) =>
      LowerDisciplined(left, n + 1, t, Label(n));
      LowerDisciplined(right, Lower(left, n + 1, t, Label(n)).next, t, f);
      PairDisciplined(left, right, n, t, Label(n), t, f);
  }

  lemma PairDisciplined(left: Cond, right: Cond, n: nat, t1: Label, f1: Label, t: Label, f: Label)
    requires (t1 == t || t1 == Label(n)) && (f1 == f || f1 == Label(n))
    requires Disciplined(Lower(left, n + 1, t1, f1).ops, n + 1, Lower(left, n + 1, t1, f1).next, t1, f1)
    requires var m := Lower(left, n + 1, t1, f1).next;
             Disciplined(Lower(right, m, t, f).ops, m, Lower(right, m, t, f).next, t, f)
    ensures var first := Lower(left, n + 1, t1, f1);
            var second := Lower(right, first.next, t, f);
            Disciplined(first.ops + [Mark(Label(n))] + second.ops, n, second.next, t, f)
  {
    var first := Lower(left, n + 1, t1, f1);
    var second := Lower(right, first.next, t, f);
    Joined(first.ops, n, first.next, t1, f1, second.ops, second.next, t, f);
  }

  lemma Joined(s1: seq<IrOp>, n: nat, m: nat, t1: Label, f1: Label, s2: seq<IrOp>, next: nat, t: Label, f: Label)
    requires n < m <= next
    requires Disciplined(s1, n + 1, m, t1, f1) && Disciplined(s2, m, next, t, f)
    requires (t1 == t || t1 == Label(n)) && (f1 == f || f1 == Label(n))
    ensures Disciplined(s1 + [Mark(Label(n))] + s2, n, next, t, f)
  {
    var s := s1 + [Mark(Label(n))] + s2;
    forall id | n <= id < next
      ensures Marked(s, Label(id))
    {
      JoinedMarked(s1, n, m, s2, next, id);
    }
    forall i, l | 0 <= i < |s| && s[i].Real? && l in Targets(s[i].insn.op)
      ensures l == t || l == f || MarkedAfter(s, i, l)
    {
      JoinedTarget(s1, n, t1, f1, s2, t, f, i, l);
    }
  }

  lemma JoinedMarked(s1: seq<IrOp>, n: nat, m: nat, s2: seq<IrOp>, next: nat, id: nat)
    requires n < m <= next && n <= id < next
    requires forall i :: n + 1 <= i < m ==> Marked(s1, Label(i))
    requires forall i :: m <= i < next ==> Marked(s2, Label(i))
    ensures Marked(s1 + [Mark(Label(n))] + s2, Label(id))
  {
    var s := s1 + [Mark(Label(n))] + s2;
    if id == n {
      assert s[|s1|] == Mark(Label(id));
    } else if id < m {
      assert Marked(s1, Label(id));
      var j :| 0 <= j < |s1| && s1[j] == Mark(Label(id));
      assert s[j] == Mark(Label(id));
    } else {
      assert Marked(s2, Label(id));
      var j :| 0 <= j < |s2| && s2[j] == Mark(Label(id));
      assert s[|s1| + 1 + j] == Mark(Label(id));
    }
  }

  lemma JoinedTarget(s1: seq<IrOp>, n: nat, t1: Label, f1: Label, s2: seq<IrOp>, t: Label, f: Label, i: nat, l: Label)
    requires (t1 == t || t1 == Label(n)) && (f1 == f || f1 == Label(n))
    requires forall i, l :: 0 <= i < |s1| && s1[i].Real? && l in Targets(s1[i].insn.op) ==>
               l == t1 || l == f1 || MarkedAfter(s1, i, l)
    requires forall i, l :: 0 <= i < |s2| && s2[i].Real? && l in Targets(s2[i].insn.op) ==>
               l == t || l == f || MarkedAfter(s2, i, l)
    requires var s := s1 + [Mark(Label(n))] + s2; i < |s| && s[i].Real? && l in Targets(s[i].insn.op)
    ensures l == t || l == f || MarkedAfter(s1 + [Mark(Label(n))] + s2, i, l)
  {
    var s := s1 + [Mark(Label(n))] + s2;
    if i < |s1| {
      assert l in Targets(s1[i].insn.op);
      if l == Label(n) {
        assert s[|s1|] == Mark(l);
      } else if MarkedAfter(s1, i, l) {
        var j :| i < j < |s1| && s1[j] == Mark(l);
        assert s[j] == Mark(l);
      }
    } else {
      var k := i - |s1| - 1;
      assert s2[k] == s[i];
      if MarkedAfter(s2, k, l) {
        var j :| k < j < |s2| && s2[j] == Mark(l);
        assert s[|s1| + 1 + j] == Mark(l);
      }
    }
  }

  // ----- the whole program -----

  /** The code of a decision between its accepting and rejecting returns. */
  function Wrapped(c: Cond, snaplen: u32): IrProgram {
    var code := Lower(c, 2, Label(0), Label(1));
    IrProgram(code.ops + Returns(snaplen), code.next)
  }

  function Returns(snaplen: u32): seq<IrOp> {
    [Mark(Label(0)), Real(IrInsn(Ret(snaplen), Span(0, 0))), Mark(Label(1)), Real(IrInsn(Ret(0), Span(0, 0)))]
  }

  /** In a whole program every label is placed exactly once and after every jump naming it, and the last
      instruction returns. */
  lemma LabelProtocol(c: Cond, snaplen: u32)
    requires WellFormed(c)
    ensures var p := Wrapped(c, snaplen);
            && WellPlaced(p.stream, p.numLabels)
            && (forall id :: 0 <= id < p.numLabels ==> Marked(p.stream, Label(id)))
            && p.stream[|p.stream| - 1] == Real(IrInsn(Ret(0), Span(0, 0)))
  {
    LowerDisciplined(c, 2, Label(0), Label(1));
    CodeProtocol(Lower(c, 2, Label(0), Label(1)), snaplen);
  }

  lemma CodeProtocol(code: Code, snaplen: u32)
    requires code.next >= 2 && Disciplined(code.ops, 2, code.next, Label(0), Label(1))
    ensures var s := code.ops + Returns(snaplen);
            && WellPlaced(s, code.next)
            && (forall id :: 0 <= id < code.next ==> Marked(s, Label(id)))
            && s[|s| - 1] == Real(IrInsn(Ret(0), Span(0, 0)))
  {
    var s := code.ops + Returns(snaplen);
    forall id | 0 <= id < code.next
      ensures Marked(s, Label(id))
    {
      WrappedMark(code, snaplen, id);
    }
    forall i, l | 0 <= i < |s| && s[i].Real? && l in Targets(s[i].insn.op)
      ensures MarkedAfter(s, i, l)
    {
      WrappedTarget(code, snaplen, i, l);
    }
  }

  lemma WrappedMark(code: Code, snaplen: u32, id: nat)
    requires Disciplined(code.ops, 2, code.next, Label(0), Label(1)) && id < code.next
    ensures Marked(code.ops + Returns(snaplen), Label(id))
  {
    var s, k := code.ops + Returns(snaplen), |code.ops|;
    assert s[k] == Mark(Label(0)) && s[k + 2] == Mark(Label(1));
    if id >= 2 {
      assert Marked(code.ops, Label(id));
      var j :| 0 <= j < |code.ops| && code.ops[j] == Mark(Label(id));
      assert s[j] == Mark(Label(id));
    }
  }

  lemma WrappedTarget(code: Code, snaplen: u32, i: nat, l: Label)
    requires Disciplined(code.ops, 2, code.next, Label(0), Label(1))
    requires var s := code.ops + Returns(snaplen); i < |s| && s[i].Real? && l in Targets(s[i].insn.op)
    ensures MarkedAfter(code.ops + Returns(snaplen), i, l)
  {
    var s, k := code.ops + Returns(snaplen), |code.ops|;
    assert i < k && code.ops[i] == s[i];
    if l == Label(0) {
      assert s[k] == Mark(l);
    } else if l == Label(1) {
      assert s[k + 2] == Mark(l);
    } else {
      assert MarkedAfter(code.ops, i, l);
      var j :| i < j < |code.ops| && code.ops[j] == Mark(l);
      assert s[j] == Mark(l);
    }
  }

  /** Running a whole program symbolically: it returns `snaplen` when the decision holds, zero when it
      does not, and stops at a bad load when the decision aborts. */
  lemma WrappedCorrect(c: Cond, snaplen: u32, packet: Bytes)
    requires WellFormed(c)
    ensures RunIr(Wrapped(c, snaplen).stream, Regs(0, 0), packet) ==
            match Decide(c, Regs(0, 0), packet)
            case Goes(b, _) => Returned(if b then snaplen else 0)
            case Abort => BadLoad
  {
    var rest := Returns(snaplen);
    FragmentCorrect(c, 2, Label(0), Label(1), rest, Regs(0, 0), packet);
    assert rest[1..][0] == rest[1] && rest[1..][1..][0] == rest[2] && rest[1..][1..][1..][0] == rest[3];
    assert Seek(rest[1..][1..], Label(1)) == rest[1..][1..][1..];
    assert Seek(rest[1..], Label(1)) == rest[1..][1..][1..];
  }
}
