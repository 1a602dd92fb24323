/** The instructions of the classic packet filter in numbers: what every code decodes to, and what every
    operation is encoded as. */
module Opcodes {
  import opened Words
  import opened Errors
  import Insn
  import opened Vm
  import opened Irep
  import opened Backpatch
  import opened Simulation

  /** The codes the machine knows. */
  const KNOWN: set<nat> := {0x28, 0x30, 0x20, 0x48, 0xb1, 0x54, 0x05, 0x15, 0x25, 0x35, 0x45, 0x06}

  /** Decoding, code by code, whatever the other fields hold. */
  lemma DecodesByNumber(insn: Insn.Insn)
    ensures insn.code == 0x28 ==> Insn.Decode(insn) == Insn.LdhAbs(insn.k)
    ensures insn.code == 0x30 ==> Insn.Decode(insn) == Insn.LdbAbs(insn.k)
    ensures insn.code == 0x20 ==> Insn.Decode(insn) == Insn.LdwAbs(insn.k)
    ensures insn.code == 0x48 ==> Insn.Decode(insn) == Insn.LdhInd(insn.k)
    ensures insn.code == 0xb1 ==> Insn.Decode(insn) == Insn.LdxMsh(insn.k)
    ensures insn.code == 0x54 ==> Insn.Decode(insn) == Insn.AluAndK(insn.k)
    ensures insn.code == 0x05 ==> Insn.Decode(insn) == Insn.Ja(insn.k)
    ensures insn.code == 0x15 ==> Insn.Decode(insn) == Insn.Jeq(insn.k)
    ensures insn.code == 0x25 ==> Insn.Decode(insn) == Insn.Jgt(insn.k)
    ensures insn.code == 0x35 ==> Insn.Decode(insn) == Insn.Jge(insn.k)
    ensures insn.code == 0x45 ==> Insn.Decode(insn) == Insn.Jset(insn.k)
    ensures insn.code == 0x06 ==> Insn.Decode(insn) == Insn.Ret(insn.k)
    ensures Insn.Decode(insn).Unknown? <==> insn.code as nat !in KNOWN
  {
  }

  function ByteOr0(packet: Bytes, o: nat): nat {
    if o < |packet| then packet[o] else 0
  }

  /** Two bytes and four as one number, the most significant first. */
  function Bytes2(packet: Bytes, o: nat): u32 {
    ByteOr0(packet, o) * 0x100 + ByteOr0(packet, o + 1)
  }

  function Bytes4(packet: Bytes, o: nat): u32 {
    ByteOr0(packet, o) * 0x100_0000 + ByteOr0(packet, o + 1) * 0x1_0000 + ByteOr0(packet, o + 2) * 0x100 +
    ByteOr0(packet, o + 3)
  }

  /** How many instructions a jump passes. */
  function Passed(insn: Insn.Insn, a: u32): nat {
    match insn.code
    case 0x05 => insn.k
    case 0x15 => if a == insn.k then insn.jt else insn.jf
    case 0x25 => if a > insn.k then insn.jt else insn.jf
    case 0x35 => if a >= insn.k then insn.jt else insn.jf
    case 0x45 => if BitAnd(a, insn.k) != 0 then insn.jt else insn.jf
    case _ => 0
  }

  /** The registers after a load or a mask, if the bytes to be loaded are there. */
  function Loaded(insn: Insn.Insn, r: Regs, packet: Bytes): Option<Regs> {
    var k: nat := insn.k;
    match insn.code
    case 0x30 => if k < |packet| then Some(Regs(ByteOr0(packet, k), r.x)) else None
    case 0x28 => if k + 2 <= |packet| then Some(Regs(Bytes2(packet, k), r.x)) else None
    case 0x20 => if k + 4 <= |packet| then Some(Regs(Bytes4(packet, k), r.x)) else None
    case 0x48 => if r.x + k + 2 <= |packet| then Some(Regs(Bytes2(packet, r.x + k), r.x)) else None
    case 0xb1 => if k < |packet| then Some(Regs(r.a, 4 * (ByteOr0(packet, k) % 16))) else None
    case 0x54 => Some(Regs(BitAnd(r.a, k), r.x))
    case _ => None
  }

  /** One instruction of any program whatsoever: what it is in numbers says how the run goes on. */
  lemma StepsByNumber(insns: seq<Insn.Insn>, pc: nat, r: Regs, packet: Bytes)
    requires pc < |insns|
    ensures Execute(insns, pc, r, packet) ==
            var code := insns[pc].code as nat;
            if code == 0x06 then Returned(insns[pc].k)
            else if code in {0x05, 0x15, 0x25, 0x35, 0x45} then
              Execute(insns, pc + 1 + Passed(insns[pc], r.a), r, packet)
            else if code in {0x30, 0x28, 0x20, 0x48, 0xb1, 0x54} then
              (match Loaded(insns[pc], r, packet)
               case Some(r') => Execute(insns, pc + 1, r', packet)
               case None => BadLoad)
            else BadOp
  {
    DecodesByNumber(insns[pc]);
    if insns[pc].code as nat in {0x30, 0x28, 0x20, 0x48, 0xb1, 0x54} {
      LoadsByNumber(insns[pc], r, packet);
    }
  }

  lemma LoadsByNumber(insn: Insn.Insn, r: Regs, packet: Bytes)
    requires insn.code as nat in {0x30, 0x28, 0x20, 0x48, 0xb1, 0x54}
    ensures Load(Insn.Decode(insn), r, packet) == Loaded(insn, r, packet)
  {
    DecodesByNumber(insn);
    var k: nat := insn.k;
    if insn.code == 0x20 {
      ReadsFour(packet, k);
    } else if insn.code == 0x48 {
      ReadsTwo(packet, r.x + k);
    } else if insn.code == 0x28 {
      ReadsTwo(packet, k);
    } else if insn.code == 0xb1 {
      LowNibble(ByteOr0(packet, k));
    }
  }

  lemma ReadsTwo(packet: Bytes, o: nat)
    ensures ReadU16(packet, o) == if o + 2 <= |packet| then Some(Bytes2(packet, o)) else None
  {
  }

  lemma ReadsFour(packet: Bytes, o: nat)
    ensures ReadU32(packet, o) == if o + 4 <= |packet| then Some(Bytes4(packet, o)) else None
  {
  }

  lemma LowNibble(b: nat)
    ensures BitAnd(b, 0x0f) * 4 == 4 * (b % 16)
  {
    Pow2Values();
    AndLowMask(b, 4);
  }

  /** The number of an operation. */
  function CodeOf(op: IrOp2): u16 {
    match op
    case LdhAbs(_) => 0x28
    case LdbAbs(_) => 0x30
    case LdwAbs(_) => 0x20
    case LdxMsh(_) => 0xb1
    case LdhInd(_) => 0x48
    case AndK(_) => 0x54
    case Jeq(_, _, _) => 0x15
    case Jgt(_, _, _) => 0x25
    case Jge(_, _, _) => 0x35
    case Jset(_, _, _) => 0x45
    case Jmp(_) => 0x05
    case Ret(_) => 0x06
  }

  /** What an instruction of the stream is assembled to: its number; for a conditional jump its immediate and how
      far its labels are; for an unconditional jump how far its label is; otherwise its operand. */
  ghost predicate IsEncoded(p: IrProgram, i: nat, insn: Insn.Insn)
    requires Resolvable(p) && i < |Reals(p.stream)|
  {
    var op := Reals(p.stream)[i].op;
    && insn.code == CodeOf(op)
    && (if IsCond(op)
        then insn.jt as int == JumpLength(p, i, op.jt) && insn.jf as int == JumpLength(p, i, op.jf) && insn.k == op.imm
        else if op.Jmp? then insn.jt == 0 && insn.jf == 0 && insn.k as int == JumpLength(p, i, op.target)
        else insn.jt == 0 && insn.jf == 0 && insn.k == op.k)
  }

  /** Every instruction the assembler hands out is its operation in numbers. */
  lemma AssembledInNumbers(p: IrProgram, i: nat)
    requires Resolvable(p) && Assembled(p).Ok? && i < |Reals(p.stream)|
    ensures IsEncoded(p, i, Assembled(p).value[i])
  {
    var op := Reals(p.stream)[i].op;
    LoweredAt(p, |Reals(p.stream)|, i);
    assert forall l :: l in Targets(op) ==> Ahead(i, l, Offsets(p));
    if IsCond(op) {
      assert op.jt in Targets(op) && op.jf in Targets(op);
    } else if op.Jmp? {
      assert op.target in Targets(op);
    }
  }
}
