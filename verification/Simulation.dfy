/** The assembler preserves meaning, fails exactly on long conditional jumps, and keeps control
    inside the program. */
module Simulation {
  import opened Words
  import opened Errors
  import Insn
  import opened Vm
  import opened Irep
  import opened Backpatch

  // ----- where instructions and marks sit -----

  lemma {:induction false} RealsPrefix(s: seq<IrOp>, i: nat, j: nat)
    requires i <= j <= |s|
    ensures Reals(s[..i]) <= Reals(s[..j])
    decreases j
  {
    if i < j {
      RealsPrefix(s, i, j - 1);
      assert s[..j][..j - 1] == s[..j - 1];
    }
  }

  /** A real instruction of the stream is found at the index of the reals before it. */
  lemma RealAt(s: seq<IrOp>, i: nat)
    requires i < |s| && s[i].Real?
    ensures |Reals(s[..i + 1])| == |Reals(s[..i])| + 1 <= |Reals(s)|
    ensures Reals(s)[|Reals(s[..i])|] == s[i].insn
  {
    assert s[..i + 1][..i] == s[..i];
    RealsPrefix(s, i + 1, |s|);
    assert s[..|s|] == s;
  }

  lemma MarkAdds(s: seq<IrOp>, i: nat)
    requires i < |s| && s[i].Mark?
    ensures Reals(s[..i + 1]) == Reals(s[..i])
  {
    assert s[..i + 1][..i] == s[..i];
  }

  /** Every real instruction comes from a position of the stream. */
  lemma {:induction false} PositionOf(s: seq<IrOp>, k: nat) returns (i: nat)
    requires k < |Reals(s)|
    ensures i < |s| && s[i] == Real(Reals(s)[k]) && |Reals(s[..i])| == k
  {
    var last := |s| - 1;
    if k < |Reals(s[..last])| {
      i := PositionOf(s[..last], k);
      assert s[..last][..i] == s[..i];
    } else {
      i := last;
    }
  }

  lemma {:induction false} OffsetOfMark(s: seq<IrOp>, j: nat, name: Label)
    requires j < |s| && s[j] == Mark(name)
    requires forall i :: j < i < |s| ==> s[i] != Mark(name)
    ensures OffsetOf(s, name) == Some(|Reals(s[..j])|)
  {
    var last := |s| - 1;
    if j < last {
      OffsetOfMark(s[..last], j, name);
      assert s[..last][..j] == s[..j];
    }
  }

  /** In a well-placed stream the target of a jump is marked after the jump, and only there. */
  lemma TargetMark(p: IrProgram, i: nat, name: Label) returns (j: nat)
    requires WellPlaced(p.stream, p.numLabels) && Fits(p)
    requires i < |p.stream| && p.stream[i].Real? && name in Targets(p.stream[i].insn.op)
    ensures i < j && OnlyMark(p.stream, j, name)
    ensures name.id < p.numLabels
  {
    assert MarkedAfter(p.stream, i, name);
    j :| i < j < |p.stream| && p.stream[j] == Mark(name);
  }

  ghost predicate OnlyMark(s: seq<IrOp>, j: nat, name: Label) {
    j < |s| && s[j] == Mark(name) && forall k :: 0 <= k < |s| && k != j ==> s[k] != Mark(name)
  }

  /** The assembler's offset of a label counts the instructions before its mark. */
  lemma MarkOffset(p: IrProgram, i: nat, j: nat, name: Label)
    requires Fits(p) && name.id < p.numLabels && OnlyMark(p.stream, j, name) && i < j && p.stream[i].Real?
    ensures Offsets(p)[name.id] == Some(|Reals(p.stream[..j])|)
    ensures |Reals(p.stream[..i])| < |Reals(p.stream[..j])|
  {
    OffsetOfMark(p.stream, j, name);
    RealAt(p.stream, i);
    RealsPrefix(p.stream, i + 1, j);
  }

  /** The label discipline is all the assembler needs: it never meets an unplaced label or a
      backward jump. */
  lemma WellPlacedResolvable(p: IrProgram)
    requires WellPlaced(p.stream, p.numLabels) && Fits(p)
    ensures Resolvable(p)
  {
    var s := p.stream;
    forall k, l | 0 <= k < |Reals(s)| && l in Targets(Reals(s)[k].op)
      ensures Ahead(k, l, Offsets(p))
    {
      var i := PositionOf(s, k);
      var j := TargetMark(p, i, l);
      MarkOffset(p, i, j, l);
    }
  }

  // ----- what the assembled instructions are -----

  lemma {:induction false} LoweredAt(p: IrProgram, n: nat, i: nat)
    requires Resolvable(p) && i < n <= |Reals(p.stream)| && LoweredUpTo(p, n).Ok?
    ensures LowerInsn(i, Reals(p.stream)[i], Offsets(p)) == Ok(LoweredUpTo(p, n).value[i])
    decreases n
  {
    if i < n - 1 {
      LoweredAt(p, n - 1, i);
    }
  }

  lemma {:induction false} SeekMark(s: seq<IrOp>, i: nat, j: nat, name: Label)
    requires i <= j && OnlyMark(s, j, name)
    ensures Seek(s[i..], name) == s[j + 1..]
    decreases j - i
  {
    if i == j {
      assert s[i..][1..] == s[j + 1..];
    } else {
      SeekMark(s, i + 1, j, name);
      assert s[i..][1..] == s[i + 1..];
    }
  }

  /** Encoding and decoding agree: the lowered instruction decodes to the operation it came from, and
      its displacements lead to the offsets of its labels. */
  lemma LoweredDecodes(idx: nat, insn: IrInsn, offsets: seq<Option<u32>>)
    requires forall l :: l in Targets(insn.op) ==> Ahead(idx, l, offsets)
    requires LowerInsn(idx, insn, offsets).Ok?
    ensures var out := LowerInsn(idx, insn, offsets).value;
            && (!insn.op.Jmp? ==> Insn.Decode(out) == MachineOp(insn.op))
            && (insn.op.Jmp? ==> Insn.Decode(out).Ja? && Ahead(idx, insn.op.target, offsets) &&
                                 idx + 1 + out.k == offsets[insn.op.target.id].value)
            && (IsCond(insn.op) ==> Ahead(idx, insn.op.jt, offsets) && Ahead(idx, insn.op.jf, offsets) &&
                                    Branch(idx, out, true) == offsets[insn.op.jt.id].value &&
                                    Branch(idx, out, false) == offsets[insn.op.jf.id].value)
  {
    assert insn.op.Jmp? ==> insn.op.target in Targets(insn.op);
    assert IsCond(insn.op) ==> insn.op.jt in Targets(insn.op) && insn.op.jf in Targets(insn.op);
  }

  /** The label a jump takes. */
  function Chosen(op: IrOp2, a: u32): Label
    requires IsCond(op) || op.Jmp?
  {
    if op.Jmp? then op.target else if Taken(MachineOp(op), a) then op.jt else op.jf
  }

  /** The lowered form of a real instruction of the stream is the machine's instruction at its index. */
  lemma InsnAt(p: IrProgram, insns: seq<Insn.Insn>, i: nat)
    requires Resolvable(p) && Assembled(p) == Ok(insns)
    requires i < |p.stream| && p.stream[i].Real?
    ensures var k := |Reals(p.stream[..i])|;
            && k < |insns|
            && |Reals(p.stream[..i + 1])| == k + 1
            && (forall l :: l in Targets(p.stream[i].insn.op) ==> Ahead(k, l, Offsets(p)))
            && LowerInsn(k, p.stream[i].insn, Offsets(p)) == Ok(insns[k])
  {
    RealAt(p.stream, i);
    var k := |Reals(p.stream[..i])|;
    assert forall l :: l in Targets(Reals(p.stream)[k].op) ==> Ahead(k, l, Offsets(p));
    LoweredAt(p, |Reals(p.stream)|, k);
  }

  /** One machine step at a jump. */
  lemma JumpStep(p: IrProgram, insns: seq<Insn.Insn>, i: nat, r: Regs, packet: Bytes)
    requires Resolvable(p) && Assembled(p) == Ok(insns)
    requires i < |p.stream| && p.stream[i].Real?
    requires var op := p.stream[i].insn.op; op.Jmp? || IsCond(op)
    ensures var l := Chosen(p.stream[i].insn.op, r.a);
            && l.id < p.numLabels
            && Offsets(p)[l.id].Some?
            && Execute(insns, |Reals(p.stream[..i])|, r, packet) == Execute(insns, Offsets(p)[l.id].value, r, packet)
  {
    InsnAt(p, insns, i);
    JumpLowered(|Reals(p.stream[..i])|, p.stream[i].insn, Offsets(p), insns, r, packet);
  }

  lemma JumpLowered(k: nat, insn: IrInsn, offsets: seq<Option<u32>>, insns: seq<Insn.Insn>, r: Regs, packet: Bytes)
    requires insn.op.Jmp? || IsCond(insn.op)
    requires forall l :: l in Targets(insn.op) ==> Ahead(k, l, offsets)
    requires k < |insns| && LowerInsn(k, insn, offsets) == Ok(insns[k])
    ensures Ahead(k, Chosen(insn.op, r.a), offsets)
    ensures Execute(insns, k, r, packet) == Execute(insns, offsets[Chosen(insn.op, r.a).id].value, r, packet)
  {
    LoweredDecodes(k, insn, offsets);
  }

  /** One machine step at anything but a jump. */
  lemma StraightStep(p: IrProgram, insns: seq<Insn.Insn>, i: nat, r: Regs, packet: Bytes)
    requires Resolvable(p) && Assembled(p) == Ok(insns)
    requires i < |p.stream| && p.stream[i].Real?
    requires var op := p.stream[i].insn.op; !op.Jmp? && !IsCond(op)
    ensures var op := p.stream[i].insn.op;
            var next := Load(MachineOp(op), r, packet);
            Execute(insns, |Reals(p.stream[..i])|, r, packet) ==
            if op.Ret? then Returned(op.k)
            else if next.Some? then Execute(insns, |Reals(p.stream[..i + 1])|, next.value, packet) else BadLoad
  {
    InsnAt(p, insns, i);
    StraightLowered(|Reals(p.stream[..i])|, p.stream[i].insn, Offsets(p), insns, r, packet);
  }

  lemma StraightLowered(k: nat, insn: IrInsn, offsets: seq<Option<u32>>, insns: seq<Insn.Insn>, r: Regs, packet: Bytes)
    requires !insn.op.Jmp? && !IsCond(insn.op)
    requires k < |insns| && LowerInsn(k, insn, offsets) == Ok(insns[k])
    ensures var next := Load(MachineOp(insn.op), r, packet);
            Execute(insns, k, r, packet) ==
            if insn.op.Ret? then Returned(insn.op.k)
            else if next.Some? then Execute(insns, k + 1, next.value, packet) else BadLoad
  {
    LoweredDecodes(k, insn, offsets);
  }

  /** Where a jump leads, in the stream and in the instruction array alike. */
  lemma JumpLands(p: IrProgram, i: nat, name: Label) returns (j: nat)
    requires WellPlaced(p.stream, p.numLabels) && Fits(p)
    requires i < |p.stream| && p.stream[i].Real? && name in Targets(p.stream[i].insn.op)
    ensures i + 1 < j <= |p.stream| && Seek(p.stream[i + 1..], name) == p.stream[j..]
    ensures name.id < p.numLabels && Offsets(p)[name.id] == Some(|Reals(p.stream[..j])|)
  {
    var m := TargetMark(p, i, name);
    MarkLands(p, i, m, name);
    j := m + 1;
  }

  lemma MarkLands(p: IrProgram, i: nat, m: nat, name: Label)
    requires Fits(p) && name.id < p.numLabels && OnlyMark(p.stream, m, name) && i < m && p.stream[i].Real?
    ensures Seek(p.stream[i + 1..], name) == p.stream[m + 1..]
    ensures Offsets(p)[name.id] == Some(|Reals(p.stream[..m + 1])|)
  {
    MarkOffset(p, i, m, name);
    SeekMark(p.stream, i + 1, m, name);
    MarkAdds(p.stream, m);
  }

  /** The simulation, from every position of the stream and all register contents. */
  lemma {:induction false} SimulatesFrom(p: IrProgram, insns: seq<Insn.Insn>, i: nat, r: Regs, packet: Bytes)
    requires WellPlaced(p.stream, p.numLabels) && Resolvable(p) && Assembled(p) == Ok(insns)
    requires i <= |p.stream|
    ensures Execute(insns, |Reals(p.stream[..i])|, r, packet) == RunIr(p.stream[i..], r, packet)
    decreases |p.stream| - i
  {
    if i == |p.stream| {
      assert p.stream[..i] == p.stream;
    } else {
      assert p.stream[i..][1..] == p.stream[i + 1..];
      if p.stream[i].Mark? {
        MarkAdds(p.stream, i);
        SimulatesFrom(p, insns, i + 1, r, packet);
      } else if p.stream[i].insn.op.Jmp? || IsCond(p.stream[i].insn.op) {
        JumpStep(p, insns, i, r, packet);
        var j := JumpLands(p, i, Chosen(p.stream[i].insn.op, r.a));
        SimulatesFrom(p, insns, j, r, packet);
      } else {
        StraightStep(p, insns, i, r, packet);
        var next := Load(MachineOp(p.stream[i].insn.op), r, packet);
        if next.Some? {
          SimulatesFrom(p, insns, i + 1, next.value, packet);
        }
      }
    }
  }

  /** Assembling a well-placed stream changes nothing about how it runs: the machine stops in the
      same way as the symbolic stream on every packet. */
  lemma AssemblerSimulation(p: IrProgram, packet: Bytes)
    requires WellPlaced(p.stream, p.numLabels) && Resolvable(p) && Assembled(p).Ok?
    ensures Execute(Assembled(p).value, 0, Regs(0, 0), packet) == RunIr(p.stream, Regs(0, 0), packet)
  {
    SimulatesFrom(p, Assembled(p).value, 0, Regs(0, 0), packet);
    assert p.stream[..0] == [] && p.stream[0..] == p.stream;
  }

  // ----- overflow -----

  /** The true displacements of a conditional jump, and whether one exceeds the 8 bits it has. */
  ghost predicate TooFar(p: IrProgram, idx: nat)
    requires Resolvable(p) && idx < |Reals(p.stream)|
  {
    var op := Reals(p.stream)[idx].op;
    IsCond(op) && (JumpLength(p, idx, op.jt) > 255 || JumpLength(p, idx, op.jf) > 255)
  }

  ghost function JumpLength(p: IrProgram, idx: nat, name: Label): int
    requires Resolvable(p) && idx < |Reals(p.stream)| && name in Targets(Reals(p.stream)[idx].op)
  {
    OffsetOf(p.stream, name).value - idx - 1
  }

  ghost predicate ReportsOverflow(p: IrProgram, idx: nat, e: CompileError)
    requires Resolvable(p) && idx < |Reals(p.stream)|
  {
    var insn := Reals(p.stream)[idx];
    && TooFar(p, idx)
    && e.at == insn.at
    && e.tag.JumpDisplacementOverflow?
    && e.tag.instIndex == idx
    && e.tag.displacement == JumpLength(p, idx, if JumpLength(p, idx, insn.op.jt) > 255 then insn.op.jt else insn.op.jf)
  }

  lemma LowerFails(p: IrProgram, idx: nat)
    requires Resolvable(p) && idx < |Reals(p.stream)|
    ensures LowerInsn(idx, Reals(p.stream)[idx], Offsets(p)).Err? <==> TooFar(p, idx)
    ensures TooFar(p, idx) ==> ReportsOverflow(p, idx, LowerInsn(idx, Reals(p.stream)[idx], Offsets(p)).error)
  {
    var insn := Reals(p.stream)[idx];
    assert forall l :: l in Targets(insn.op) ==> Ahead(idx, l, Offsets(p));
    if IsCond(insn.op) {
      assert insn.op.jt in Targets(insn.op) && insn.op.jf in Targets(insn.op);
    }
  }

  lemma {:induction false} OverflowUpTo(p: IrProgram, n: nat)
    requires Resolvable(p) && n <= |Reals(p.stream)|
    ensures LoweredUpTo(p, n).Ok? ==> forall i :: 0 <= i < n ==> !TooFar(p, i)
    ensures LoweredUpTo(p, n).Err? ==>
              exists i :: 0 <= i < n && ReportsOverflow(p, i, LoweredUpTo(p, n).error) &&
                          forall j :: 0 <= j < i ==> !TooFar(p, j)
  {
    if n > 0 {
      OverflowUpTo(p, n - 1);
      LowerFails(p, n - 1);
      var r := LoweredUpTo(p, n - 1);
      if r.Err? {
        assert LoweredUpTo(p, n) == Err(r.error);
      } else if TooFar(p, n - 1) {
        assert ReportsOverflow(p, n - 1, LoweredUpTo(p, n).error);
      }
    }
  }

  /** Assembling fails if and only if some conditional jump is longer than 255 instructions, and then
      reports the first such jump, true branch before false branch, with its true length. */
  lemma OverflowIsExact(p: IrProgram)
    requires Resolvable(p)
    ensures Assembled(p).Err? <==> exists i :: 0 <= i < |Reals(p.stream)| && TooFar(p, i)
    ensures Assembled(p).Err? ==>
              exists i :: 0 <= i < |Reals(p.stream)| && ReportsOverflow(p, i, Assembled(p).error) &&
                          forall j :: 0 <= j < i ==> !TooFar(p, j)
  {
    OverflowUpTo(p, |Reals(p.stream)|);
  }

  /** No jump of a program of at most 257 instructions is too long, provided no label is marked at its
      very end. */
  lemma SmallProgramsAssemble(p: IrProgram)
    requires Resolvable(p) && |Reals(p.stream)| <= 257
    requires p.stream != [] && p.stream[|p.stream| - 1].Real?
    ensures Assembled(p).Ok?
  {
    forall i | 0 <= i < |Reals(p.stream)|
      ensures !TooFar(p, i)
    {
      var op := Reals(p.stream)[i].op;
      forall l | l in Targets(op)
        ensures JumpLength(p, i, l) <= 255
      {
        assert Ahead(i, l, Offsets(p));
        OffsetInside(p.stream, l);
      }
      if IsCond(op) {
        assert op.jt in Targets(op) && op.jf in Targets(op);
      }
    }
    OverflowIsExact(p);
  }

  /** When a stream ends in a real instruction, every label stands for an instruction of it. */
  lemma OffsetInside(s: seq<IrOp>, name: Label)
    requires s != [] && s[|s| - 1].Real?
    ensures OffsetOf(s, name).Some? ==> OffsetOf(s, name).value < |Reals(s)|
  {
  }

  // ----- control stays inside -----

  /** A decodable instruction whose jump targets, and fall-through, are instructions of the program. */
  predicate StaysInside(insns: seq<Insn.Insn>, i: nat)
    requires i < |insns|
  {
    var op := Insn.Decode(insns[i]);
    && !op.Unknown?
    && (op.Ja? ==> i + 1 + op.k < |insns|)
    && (IsCondJump(op) ==> i + 1 + insns[i].jt < |insns| && i + 1 + insns[i].jf < |insns|)
    && (i + 1 == |insns| ==> op.Ret?)
  }

  /** In the output of the assembler every resolved target is an instruction, every opcode decodes, and
      the last instruction returns when the stream's last does. */
  lemma AssembledStaysInside(p: IrProgram)
    requires Resolvable(p) && Assembled(p).Ok?
    requires p.stream != [] && p.stream[|p.stream| - 1].Real? && p.stream[|p.stream| - 1].insn.op.Ret?
    ensures forall i :: 0 <= i < |Assembled(p).value| ==> StaysInside(Assembled(p).value, i)
  {
    var insns := Assembled(p).value;
    forall i | 0 <= i < |insns|
      ensures StaysInside(insns, i)
    {
      TargetsInside(p, i);
      LoweredAt(p, |insns|, i);
      LoweredInside(i, Reals(p.stream)[i], Offsets(p), insns);
    }
  }

  lemma TargetsInside(p: IrProgram, i: nat)
    requires Resolvable(p) && i < |Reals(p.stream)|
    requires p.stream != [] && p.stream[|p.stream| - 1].Real? && p.stream[|p.stream| - 1].insn.op.Ret?
    ensures forall l :: l in Targets(Reals(p.stream)[i].op) ==>
              Ahead(i, l, Offsets(p)) && Offsets(p)[l.id].value < |Reals(p.stream)|
    ensures i + 1 == |Reals(p.stream)| ==> Reals(p.stream)[i].op.Ret?
  {
    forall l | l in Targets(Reals(p.stream)[i].op)
      ensures Ahead(i, l, Offsets(p)) && Offsets(p)[l.id].value < |Reals(p.stream)|
    {
      assert Ahead(i, l, Offsets(p));
      OffsetInside(p.stream, l);
    }
  }

  lemma LoweredInside(i: nat, insn: IrInsn, offsets: seq<Option<u32>>, insns: seq<Insn.Insn>)
    requires i < |insns|
    requires forall l :: l in Targets(insn.op) ==> Ahead(i, l, offsets) && offsets[l.id].value < |insns|
    requires i + 1 == |insns| ==> insn.op.Ret?
    requires LowerInsn(i, insn, offsets) == Ok(insns[i])
    ensures StaysInside(insns, i)
  {
    LoweredDecodes(i, insn, offsets);
    assert insn.op.Jmp? ==> insn.op.target in Targets(insn.op);
    assert IsCond(insn.op) ==> insn.op.jt in Targets(insn.op) && insn.op.jf in Targets(insn.op);
  }

  /** Such a program never runs off its end and never meets an unknown opcode: a run returns, or stops
      at a load past the end of the packet. */
  lemma {:induction false} InsideRunsEndWell(insns: seq<Insn.Insn>, pc: nat, r: Regs, packet: Bytes)
    requires forall i :: 0 <= i < |insns| ==> StaysInside(insns, i)
    requires pc < |insns|
    ensures Execute(insns, pc, r, packet).Returned? || Execute(insns, pc, r, packet).BadLoad?
    decreases |insns| - pc
  {
    assert StaysInside(insns, pc);
    var op := Insn.Decode(insns[pc]);
    if op.Ret? {
    } else if op.Ja? {
      InsideRunsEndWell(insns, pc + 1 + op.k, r, packet);
    } else if IsCondJump(op) {
      InsideRunsEndWell(insns, Branch(pc, insns[pc], Taken(op, r.a)), r, packet);
    } else {
      var next := Load(op, r, packet);
      if next.Some? {
        InsideRunsEndWell(insns, pc + 1, next.value, packet);
      }
    }
  }
}
