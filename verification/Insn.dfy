/** The concrete cBPF instruction, its opcodes, and their decoding. */
module Insn {
  import opened Words

  // Opcode fields occupy disjoint bits, so combining them with `|` is addition.
  const BPF_LD: u16 := 0x00
  const BPF_LDX: u16 := 0x01
  const BPF_ALU: u16 := 0x04
  const BPF_JMP: u16 := 0x05
  const BPF_RET: u16 := 0x06
  const BPF_W: u16 := 0x00
  const BPF_H: u16 := 0x08
  const BPF_B: u16 := 0x10
  const BPF_ABS: u16 := 0x20
  const BPF_IND: u16 := 0x40
  const BPF_MSH: u16 := 0xa0
  const BPF_JA: u16 := 0x00
  const BPF_JEQ: u16 := 0x10
  const BPF_JGT: u16 := 0x20
  const BPF_JGE: u16 := 0x30
  const BPF_JSET: u16 := 0x40
  const BPF_AND: u16 := 0x50
  const BPF_K: u16 := 0x00

  datatype Insn = Insn(code: u16, jt: u8, jf: u8, k: u32)

  datatype Op =
    | LdhAbs(k: u32)
    | LdbAbs(k: u32)
    | LdwAbs(k: u32)
    | LdhInd(k: u32)
    | LdxMsh(k: u32)
    | AluAndK(k: u32)
    | Ja(k: u32)
    | Jeq(k: u32)
    | Jgt(k: u32)
    | Jge(k: u32)
    | Jset(k: u32)
    | Ret(k: u32)
    | Unknown

  function LdhAbsInsn(k: u32): Insn { Insn(BPF_LD + BPF_H + BPF_ABS, 0, 0, k) }

  function LdbAbsInsn(k: u32): Insn { Insn(BPF_LD + BPF_B + BPF_ABS, 0, 0, k) }

  function LdwAbsInsn(k: u32): Insn { Insn(BPF_LD + BPF_W + BPF_ABS, 0, 0, k) }

  function LdxMshInsn(k: u32): Insn { Insn(BPF_LDX + BPF_B + BPF_MSH, 0, 0, k) }

  function LdhIndInsn(k: u32): Insn { Insn(BPF_LD + BPF_H + BPF_IND, 0, 0, k) }

  function JeqInsn(k: u32, jt: u8, jf: u8): Insn { Insn(BPF_JMP + BPF_JEQ + BPF_K, jt, jf, k) }

  function JgtInsn(k: u32, jt: u8, jf: u8): Insn { Insn(BPF_JMP + BPF_JGT + BPF_K, jt, jf, k) }

  function JgeInsn(k: u32, jt: u8, jf: u8): Insn { Insn(BPF_JMP + BPF_JGE + BPF_K, jt, jf, k) }

  function JsetInsn(k: u32, jt: u8, jf: u8): Insn { Insn(BPF_JMP + BPF_JSET + BPF_K, jt, jf, k) }

  function JmpInsn(k: u32): Insn { Insn(BPF_JMP + BPF_JA, 0, 0, k) }

  function RetInsn(k: u32): Insn { Insn(BPF_RET + BPF_K, 0, 0, k) }

  function AndKInsn(k: u32): Insn { Insn(BPF_ALU + BPF_AND + BPF_K, 0, 0, k) }

  function Decode(insn: Insn): Op {
    var c := insn.code;
    if c == BPF_LD + BPF_H + BPF_ABS then LdhAbs(insn.k)
    else if c == BPF_LD + BPF_B + BPF_ABS then LdbAbs(insn.k)
    else if c == BPF_LD + BPF_W + BPF_ABS then LdwAbs(insn.k)
    else if c == BPF_LD + BPF_H + BPF_IND then LdhInd(insn.k)
    else if c == BPF_LDX + BPF_B + BPF_MSH then LdxMsh(insn.k)
    else if c == BPF_ALU + BPF_AND + BPF_K then AluAndK(insn.k)
    else if c == BPF_JMP + BPF_JA then Ja(insn.k)
    else if c == BPF_JMP + BPF_JEQ + BPF_K then Jeq(insn.k)
    else if c == BPF_JMP + BPF_JGT + BPF_K then Jgt(insn.k)
    else if c == BPF_JMP + BPF_JGE + BPF_K then Jge(insn.k)
    else if c == BPF_JMP + BPF_JSET + BPF_K then Jset(insn.k)
    else if c == BPF_RET + BPF_K then Ret(insn.k)
    else Unknown
  }
}
