/** The back end as a whole: from an expanded expression to the instructions that run it. */
module Compiler {
  import opened Words
  import opened Errors
  import opened Ast
  import opened LinkType
  import Insn
  import opened Vm
  import opened Irep
  import opened Backpatch
  import opened Simulation
  import opened Decision
  import opened Filters
  import opened Labels
  import opened Codegen
  import opened GateProofs
  import opened LeafProofs
  import M = Meaning

  /** The expression's code, where there is any, fits the assembler's 32-bit instruction counts. */
  predicate FitsAssembler(e: ExpandedExpr, link: LinkType)
    requires InRange(e)
  {
    var p := Generated(e, link, 0);
    p.Ok? ==> Fits(p.value)
  }

  /** What the generator yields is what the assembler relies on. */
  lemma GeneratedIsWellPlaced(e: ExpandedExpr, link: LinkType, snaplen: u32)
    requires InRange(e) && FitsAssembler(e, link) && Generated(e, link, snaplen).Ok?
    ensures var p := Generated(e, link, snaplen).value;
            && WellPlaced(p.stream, p.numLabels)
            && Resolvable(p)
            && (forall id :: 0 <= id < p.numLabels ==> Marked(p.stream, Label(id)))
            && p.stream != []
            && p.stream[|p.stream| - 1] == Real(IrInsn(Ret(0), Span(0, 0)))
  {
    ExprDecides(e, link, []);
    var c := CondOf(e, link).value;
    LabelProtocol(c, snaplen);
    assert |Wrapped(c, snaplen).stream| == |Wrapped(c, 0).stream|;
    WellPlacedResolvable(Generated(e, link, snaplen).value);
  }

  function CompiledExpr(e: ExpandedExpr, link: LinkType, snaplen: u32): Result<seq<Insn.Insn>, CompileError>
    requires InRange(e) && FitsAssembler(e, link)
  {
    match Generated(e, link, snaplen)
    case Ok(p) =>
      GeneratedIsWellPlaced(e, link, snaplen);
      Assembled(p)
    case Err(error) => Err(error)
  }

  method CompileExpanded(e: ExpandedExpr, link: LinkType, snaplen: u32)
    returns (r: Result<seq<Insn.Insn>, CompileError>)
    requires InRange(e) && FitsAssembler(e, link)
    ensures r == CompiledExpr(e, link, snaplen)
  {
    var p :- Generate(e, link, snaplen);
    GeneratedIsWellPlaced(e, link, snaplen);
    r := Assemble(p);
  }

  /** How a compiled program ends on a packet. */
  function Ending(insns: seq<Insn.Insn>, packet: Bytes): Stop {
    Execute(insns, 0, Regs(0, 0), packet)
  }

  /** A verdict as the end of a run: accept, reject, or stop at a load past the packet's end. */
  function StopFor(v: M.Verdict, snaplen: u32): Stop {
    match v
    case Yes => Returned(snaplen)
    case No => Returned(0)
    case Unknown => BadLoad
  }

  /** Semantic preservation. For every expression, link type and snap length that compile, and every
      packet, truncated or not, the program ends as the expression's meaning says. */
  lemma SemanticPreservation(e: ExpandedExpr, link: LinkType, snaplen: u32, packet: Bytes)
    requires InRange(e) && FitsAssembler(e, link) && CompiledExpr(e, link, snaplen).Ok?
    ensures Ending(CompiledExpr(e, link, snaplen).value, packet) == StopFor(M.ExprMeaning(e, link, packet), snaplen)
    ensures Status(Ending(CompiledExpr(e, link, snaplen).value, packet)) ==
            if M.ExprMeaning(e, link, packet).Yes? then snaplen else 0
  {
    GeneratedIsWellPlaced(e, link, snaplen);
    var c := CondOf(e, link).value;
    ExprDecides(e, link, packet);
    assert VerdictOf(Decide(c, Regs(0, 0), packet)) == M.ExprMeaning(e, link, packet);
    WrappedCorrect(c, snaplen, packet);
    AssemblerSimulation(Wrapped(c, snaplen), packet);
  }

  /** Compiling and running: the whole back end against the meaning. */
  method Filter(e: ExpandedExpr, link: LinkType, snaplen: u32, packet: Bytes) returns (r: Result<u32, CompileError>)
    requires InRange(e) && FitsAssembler(e, link)
    ensures r.Err? <==> CompiledExpr(e, link, snaplen).Err?
    ensures r.Err? ==> CompiledExpr(e, link, snaplen) == Err(r.error)
    ensures r.Ok? ==> r.value == if M.ExprMeaning(e, link, packet).Yes? then snaplen else 0
  {
    var insns :- CompileExpanded(e, link, snaplen);
    SemanticPreservation(e, link, snaplen, packet);
    var k, _ := Run(insns, packet);
    return Ok(k);
  }

  /** A compiled program is sound as a program: every jump lands inside it, every opcode is known, it
      ends in a return, and no run falls off its end. */
  lemma CompiledProgramIsSound(e: ExpandedExpr, link: LinkType, snaplen: u32, packet: Bytes)
    requires InRange(e) && FitsAssembler(e, link) && CompiledExpr(e, link, snaplen).Ok?
    ensures var insns := CompiledExpr(e, link, snaplen).value;
            && insns != []
            && (forall i :: 0 <= i < |insns| ==> StaysInside(insns, i))
            && Insn.Decode(insns[|insns| - 1]) == Insn.Ret(0)
            && (Ending(insns, packet).Returned? || Ending(insns, packet).BadLoad?)
  {
    GeneratedIsWellPlaced(e, link, snaplen);
    var p := Generated(e, link, snaplen).value;
    var insns := Assembled(p).value;
    AssembledStaysInside(p);
    LastInsn(p);
    InsideRunsEndWell(insns, 0, Regs(0, 0), packet);
  }

  lemma LastInsn(p: IrProgram)
    requires Resolvable(p) && Assembled(p).Ok? && p.stream != []
    requires p.stream[|p.stream| - 1] == Real(IrInsn(Ret(0), Span(0, 0)))
    ensures var insns := Assembled(p).value; insns != [] && Insn.Decode(insns[|insns| - 1]) == Insn.Ret(0)
  {
    var n := |Reals(p.stream)|;
    RealAt(p.stream, |p.stream| - 1);
    assert p.stream[..|p.stream|] == p.stream;
    LoweredAt(p, n, n - 1);
  }
}
