/** The intermediate representation: instructions whose jumps name labels, and the builder that
    collects them. */
module Irep {
  import opened Words
  import opened Errors
  import Insn
  import opened Vm

  datatype Label = Label(id: nat)

  datatype IrOp2 =
    | LdhAbs(k: u32)
    | LdbAbs(k: u32)
    | LdwAbs(k: u32)
    | LdxMsh(k: u32)
    | LdhInd(k: u32)
    | AndK(k: u32)
    | Jeq(imm: u32, jt: Label, jf: Label)
    | Jgt(imm: u32, jt: Label, jf: Label)
    | Jge(imm: u32, jt: Label, jf: Label)
    | Jset(imm: u32, jt: Label, jf: Label)
    | Jmp(target: Label)
    | Ret(k: u32)

  datatype IrInsn = IrInsn(op: IrOp2, at: Span)

  /** A real instruction, or a zero-width mark saying that a label stands for what comes next. */
  datatype IrOp = Real(insn: IrInsn) | Mark(name: Label)

  datatype IrProgram = IrProgram(stream: seq<IrOp>, numLabels: nat)

  predicate IsCond(op: IrOp2) {
    op.Jeq? || op.Jgt? || op.Jge? || op.Jset?
  }

  /** Loads and the `and`: instructions that fall through. */
  predicate IsStraight(op: IrOp2) {
    !IsCond(op) && !op.Jmp? && !op.Ret?
  }

  /** The machine operation an instruction becomes once its labels are gone. */
  function MachineOp(op: IrOp2): Insn.Op
    requires !op.Jmp?
  {
    match op
    case LdhAbs(k) => Insn.LdhAbs(k)
    case LdbAbs(k) => Insn.LdbAbs(k)
    case LdwAbs(k) => Insn.LdwAbs(k)
    case LdxMsh(k) => Insn.LdxMsh(k)
    case LdhInd(k) => Insn.LdhInd(k)
    case AndK(k) => Insn.AluAndK(k)
    case Jeq(imm, _, _) => Insn.Jeq(imm)
    case Jgt(imm, _, _) => Insn.Jgt(imm)
    case Jge(imm, _, _) => Insn.Jge(imm)
    case Jset(imm, _, _) => Insn.Jset(imm)
    case Ret(k) => Insn.Ret(k)
  }

  function Targets(op: IrOp2): set<Label> {
    if IsCond(op) then {op.jt, op.jf} else if op.Jmp? then {op.target} else {}
  }

  class IrBuilder {
    var stream: seq<IrOp>
    var numLabels: nat

    constructor ()
      ensures stream == [] && numLabels == 0
    {
      stream := [];
      numLabels := 0;
    }

    method NewLabel() returns (name: Label)
      modifies this
      ensures name == Label(old(numLabels)) && numLabels == old(numLabels) + 1
      ensures stream == old(stream)
    {
      name := Label(numLabels);
      numLabels := numLabels + 1;
    }

    method Place(name: Label)
      modifies this
      ensures stream == old(stream) + [Mark(name)] && numLabels == old(numLabels)
    {
      stream := stream + [Mark(name)];
    }

    method Emit(op: IrOp2, at: Span)
      modifies this
      ensures stream == old(stream) + [Real(IrInsn(op, at))] && numLabels == old(numLabels)
    {
      stream := stream + [Real(IrInsn(op, at))];
    }

    method Finish() returns (program: IrProgram)
      ensures program == IrProgram(stream, numLabels)
    {
      program := IrProgram(stream, numLabels);
    }
  }

  // ----- running a symbolic stream -----

  /** What follows the first mark of `name` in `s`; nothing when `s` never marks it. */
  function Seek(s: seq<IrOp>, name: Label): (r: seq<IrOp>)
    ensures |r| <= |s|
  {
    if s == [] then []
    else if s[0] == Mark(name) then s[1..]
    else Seek(s[1..], name)
  }

  /** Running the stream `s` from its start, jumps going to the labels they name. */
  function RunIr(s: seq<IrOp>, r: Regs, packet: Bytes): Stop
    decreases |s|
  {
    if s == [] then OffEnd
    else if s[0].Mark? then RunIr(s[1..], r, packet)
    else
      var op := s[0].insn.op;
      if op.Ret? then Returned(op.k)
      else if op.Jmp? then RunIr(Seek(s[1..], op.target), r, packet)
      else if IsCond(op) then RunIr(Seek(s[1..], if Taken(MachineOp(op), r.a) then op.jt else op.jf), r, packet)
      else match Load(MachineOp(op), r, packet)
        case Some(r') => RunIr(s[1..], r', packet)
        case None => BadLoad
  }

  // ----- the label discipline -----

  /** Marks are in range and distinct, and a jump names a label marked after it. */
  ghost predicate WellPlaced(s: seq<IrOp>, numLabels: nat) {
    && (forall i :: 0 <= i < |s| && s[i].Mark? ==> s[i].name.id < numLabels)
    && (forall i, j :: 0 <= i < j < |s| && s[i].Mark? && s[j].Mark? ==> s[i].name != s[j].name)
    && (forall i, l :: 0 <= i < |s| && s[i].Real? && l in Targets(s[i].insn.op) ==> MarkedAfter(s, i, l))
  }

  ghost predicate MarkedAfter(s: seq<IrOp>, i: nat, l: Label) {
    exists j :: i < j < |s| && s[j] == Mark(l)
  }
}
