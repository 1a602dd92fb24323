/** The two-pass assembler: labels become offsets, offsets become relative displacements. */
module Backpatch {
  import opened Words
  import opened Errors
  import Insn
  import opened Irep

  // ----- what the two passes compute -----

  /** The real instructions of a stream, in order. */
  function Reals(s: seq<IrOp>): (r: seq<IrInsn>)
    ensures |r| <= |s|
  {
    if s == [] then []
    else
      var before := Reals(s[..|s| - 1]);
      match s[|s| - 1]
      case Real(insn) => before + [insn]
      case Mark(_) => before
  }

  /** How many real instructions precede the last mark of `name`. */
  function OffsetOf(s: seq<IrOp>, name: Label): (r: Option<nat>)
    ensures r.Some? ==> r.value <= |Reals(s)|
  {
    if s == [] then None
    else if s[|s| - 1] == Mark(name) then Some(|Reals(s[..|s| - 1])|)
    else OffsetOf(s[..|s| - 1], name)
  }

  /** Streams short enough for instruction counts to fit the 32 bits the assembler keeps them in. */
  predicate Fits(p: IrProgram) {
    |p.stream| <= 0xffff_ffff
  }

  function Offsets(p: IrProgram): seq<Option<u32>>
    requires Fits(p)
  {
    seq(p.numLabels, (i: nat) requires Fits(p) => OffsetAt(p, i))
  }

  function OffsetAt(p: IrProgram, i: nat): Option<u32>
    requires Fits(p)
  {
    match OffsetOf(p.stream, Label(i))
    case Some(v) => Some(v)
    case None => None
  }

  /** The label is placed, after instruction `idx`. */
  predicate Ahead(idx: nat, name: Label, offsets: seq<Option<u32>>) {
    name.id < |offsets| && offsets[name.id].Some? && idx < offsets[name.id].value
  }

  /** What the assembler relies on: marks in range, and every jump naming a label placed after it. */
  ghost predicate Resolvable(p: IrProgram) {
    && Fits(p)
    && (forall i :: 0 <= i < |p.stream| && p.stream[i].Mark? ==> p.stream[i].name.id < p.numLabels)
    && (forall i, l :: 0 <= i < |Reals(p.stream)| && l in Targets(Reals(p.stream)[i].op) ==> Ahead(i, l, Offsets(p)))
  }

  function DisplacementFrom(idx: nat, name: Label, offsets: seq<Option<u32>>): (d: u32)
    requires Ahead(idx, name, offsets)
  {
    offsets[name.id].value - (idx + 1)
  }

  function ResolveBranch(idx: nat, name: Label, offsets: seq<Option<u32>>, at: Span): Result<u8, CompileError>
    requires Ahead(idx, name, offsets)
  {
    var d := DisplacementFrom(idx, name, offsets);
    if d <= 255 then Ok(d) else Err(CompileError(at, JumpDisplacementOverflow(idx, d)))
  }

  function CondInsn(op: IrOp2, jt: u8, jf: u8): Insn.Insn
    requires IsCond(op)
  {
    match op
    case Jeq(imm, _, _) => Insn.JeqInsn(imm, jt, jf)
    case Jgt(imm, _, _) => Insn.JgtInsn(imm, jt, jf)
    case Jge(imm, _, _) => Insn.JgeInsn(imm, jt, jf)
    case Jset(imm, _, _) => Insn.JsetInsn(imm, jt, jf)
  }

  function LowerInsn(idx: nat, insn: IrInsn, offsets: seq<Option<u32>>): Result<Insn.Insn, CompileError>
    requires forall l :: l in Targets(insn.op) ==> Ahead(idx, l, offsets)
  {
    match insn.op
    case LdhAbs(k) => Ok(Insn.LdhAbsInsn(k))
    case LdbAbs(k) => Ok(Insn.LdbAbsInsn(k))
    case LdwAbs(k) => Ok(Insn.LdwAbsInsn(k))
    case LdxMsh(k) => Ok(Insn.LdxMshInsn(k))
    case LdhInd(k) => Ok(Insn.LdhIndInsn(k))
    case AndK(k) => Ok(Insn.AndKInsn(k))
    case Jmp(target) => Ok(Insn.JmpInsn(DisplacementFrom(idx, target, offsets)))
    case Ret(k) => Ok(Insn.RetInsn(k))
    case _ =>
      var jt :- ResolveBranch(idx, insn.op.jt, offsets, insn.at);
      var jf :- ResolveBranch(idx, insn.op.jf, offsets, insn.at);
      Ok(CondInsn(insn.op, jt, jf))
  }

  /** The first `n` instructions lowered, or the first error among them. */
  function LoweredUpTo(p: IrProgram, n: nat): (r: Result<seq<Insn.Insn>, CompileError>)
    requires Resolvable(p) && n <= |Reals(p.stream)|
    ensures r.Ok? ==> |r.value| == n
  {
    if n == 0 then Ok([])
    else
      var before :- LoweredUpTo(p, n - 1);
      var insn :- LowerInsn(n - 1, Reals(p.stream)[n - 1], Offsets(p));
      Ok(before + [insn])
  }

  function Assembled(p: IrProgram): (r: Result<seq<Insn.Insn>, CompileError>)
    requires Resolvable(p)
    ensures r.Ok? ==> |r.value| == |Reals(p.stream)|
  {
    LoweredUpTo(p, |Reals(p.stream)|)
  }

  /** How one more operation changes what precedes and what is placed. */
  lemma OneMoreOp(s: seq<IrOp>, i: nat)
    requires i < |s|
    ensures Reals(s[..i + 1]) == if s[i].Real? then Reals(s[..i]) + [s[i].insn] else Reals(s[..i])
    ensures forall name :: OffsetOf(s[..i + 1], name) ==
                           if s[i] == Mark(name) then Some(|Reals(s[..i])|) else OffsetOf(s[..i], name)
  {
    assert s[..i + 1][..i] == s[..i];
  }

  method Assemble(p: IrProgram) returns (r: Result<seq<Insn.Insn>, CompileError>)
    requires Resolvable(p)
    ensures r == Assembled(p)
  {
    var stream := p.stream;
    var offsets := new Option<u32>[p.numLabels](i => None);
    var found: seq<IrInsn> := [];
    for i := 0 to |stream|
      invariant found == Reals(stream[..i])
      invariant forall l :: 0 <= l < offsets.Length ==> offsets[l] == OffsetOf(stream[..i], Label(l))
    {
      OneMoreOp(stream, i);
      match stream[i] {
        case Mark(name) => offsets[name.id] := Some(|found|);
        case Real(insn) => found := found + [insn];
      }
    }
    assert stream[..|stream|] == stream;
    assert offsets[..] == Offsets(p);
    var insns: seq<Insn.Insn> := [];
    for idx := 0 to |found|
      invariant LoweredUpTo(p, idx) == Ok(insns)
    {
      var lowered := LowerInsn(idx, found[idx], offsets[..]);
      if lowered.Err? {
        LoweredStops(p, idx + 1);
        return Err(lowered.error);
      }
      insns := insns + [lowered.value];
    }
    assert Assembled(p) == LoweredUpTo(p, |found|);
    return Ok(insns);
  }

  /** Lowering never gets past its first error. */
  lemma {:induction false} LoweredStops(p: IrProgram, n: nat)
    requires Resolvable(p) && n <= |Reals(p.stream)| && LoweredUpTo(p, n).Err?
    ensures Assembled(p) == LoweredUpTo(p, n)
  {
    var m := n;
    while m < |Reals(p.stream)|
      invariant n <= m <= |Reals(p.stream)| && LoweredUpTo(p, m) == LoweredUpTo(p, n)
    {
      m := m + 1;
    }
  }
}
