/** The cBPF interpreter: its loop, the machine it implements, and what holds of every run. */
module Vm {
  import opened Words
  import opened Errors
  import opened Insn

  datatype Regs = Regs(a: u32, x: u32)

  /** How a run ends. Everything but `Returned` rejects the packet. */
  datatype Stop = Returned(k: u32) | BadLoad | OffEnd | BadOp

  function Status(s: Stop): u32 {
    match s
    case Returned(k) => k
    case _ => 0
  }

  function ReadU8(packet: Bytes, offset: nat): Option<u32> {
    if offset < |packet| then Some(packet[offset]) else None
  }

  function ReadU16(packet: Bytes, offset: nat): Option<u32> {
    if offset + 2 <= |packet| then Some(packet[offset] as int * 0x100 + packet[offset + 1] as int) else None
  }

  function ReadU32(packet: Bytes, offset: nat): Option<u32> {
    if offset + 4 <= |packet| then
      Some(((packet[offset] as int * 0x100 + packet[offset + 1] as int) * 0x100 + packet[offset + 2] as int) * 0x100 +
           packet[offset + 3] as int)
    else None
  }

  /** The registers after a load or `and`; `None` when the load is out of bounds. */
  function Load(op: Op, r: Regs, packet: Bytes): Option<Regs> {
    match op
    case LdhAbs(k) => SetA(r, ReadU16(packet, k))
    case LdbAbs(k) => SetA(r, ReadU8(packet, k))
    case LdwAbs(k) => SetA(r, ReadU32(packet, k))
    case LdhInd(k) => SetA(r, ReadU16(packet, r.x + k))
    case LdxMsh(k) =>
      (match ReadU8(packet, k)
       case Some(b) => Some(r.(x := BitAnd(b, 0x0f) * 4))
       case None => None)
    case AluAndK(k) => Some(r.(a := BitAnd(r.a, k)))
    case _ => Some(r)
  }

  function SetA(r: Regs, v: Option<u32>): Option<Regs> {
    match v
    case Some(a) => Some(r.(a := a))
    case None => None
  }

  predicate IsCondJump(op: Op) {
    op.Jeq? || op.Jgt? || op.Jge? || op.Jset?
  }

  predicate Taken(op: Op, a: u32)
    requires IsCondJump(op)
  {
    match op
    case Jeq(k) => a == k
    case Jgt(k) => a > k
    case Jge(k) => a >= k
    case Jset(k) => BitAnd(a, k) != 0
  }

  function Branch(pc: nat, insn: Insn, taken: bool): nat {
    pc + 1 + (if taken then insn.jt else insn.jf)
  }

  /** The machine: what running `insns` from `pc` with registers `r` comes to. */
  function Execute(insns: seq<Insn>, pc: nat, r: Regs, packet: Bytes): Stop
    decreases |insns| - pc
  {
    if pc >= |insns| then OffEnd
    else
      var op := Decode(insns[pc]);
      if op.Ret? then Returned(op.k)
      else if op.Unknown? then BadOp
      else if op.Ja? then Execute(insns, pc + 1 + op.k, r, packet)
      else if IsCondJump(op) then Execute(insns, Branch(pc, insns[pc], Taken(op, r.a)), r, packet)
      else match Load(op, r, packet)
        case Some(r') => Execute(insns, pc + 1, r', packet)
        case None => BadLoad
  }

  /** Where a run goes on after one instruction, and with which registers; none where it stops. */
  function Next(insns: seq<Insn>, pc: nat, r: Regs, packet: Bytes): (next: Option<(nat, Regs)>)
    requires pc < |insns|
    ensures next.Some? ==> pc < next.value.0
  {
    var op := Decode(insns[pc]);
    if op.Ret? || op.Unknown? then None
    else if op.Ja? then Some((pc + 1 + op.k, r))
    else if IsCondJump(op) then Some((Branch(pc, insns[pc], Taken(op, r.a)), r))
    else match Load(op, r, packet)
      case Some(r') => Some((pc + 1, r'))
      case None => None
  }

  /** The instruction indices a run visits, in order. */
  function Visited(insns: seq<Insn>, pc: nat, r: Regs, packet: Bytes): seq<nat>
    decreases |insns| - pc
  {
    if pc >= |insns| then []
    else match Next(insns, pc, r, packet)
      case Some((pc', r')) => [pc] + Visited(insns, pc', r', packet)
      case None => [pc]
  }

  /** Whatever the instructions, the program counter only grows, so a run takes at most one step per
      instruction. */
  lemma {:induction false} RunsForward(insns: seq<Insn>, pc: nat, r: Regs, packet: Bytes)
    ensures forall i, j :: 0 <= i < j < |Visited(insns, pc, r, packet)| ==>
              Visited(insns, pc, r, packet)[i] < Visited(insns, pc, r, packet)[j]
    ensures forall i :: 0 <= i < |Visited(insns, pc, r, packet)| ==>
              pc <= Visited(insns, pc, r, packet)[i] < |insns|
    ensures pc <= |insns| ==> |Visited(insns, pc, r, packet)| <= |insns| - pc
    ensures pc > |insns| ==> Visited(insns, pc, r, packet) == []
    decreases |insns| - pc
  {
    if pc < |insns| && Next(insns, pc, r, packet).Some? {
      var (pc', r') := Next(insns, pc, r, packet).value;
      RunsForward(insns, pc', r', packet);
    }
  }

  /** What a run visits are its own configurations: from every instruction visited, with the registers it is
      reached with, the run ends as the whole run does and goes on to visit the rest. */
  lemma {:induction false} VisitedIsRun(insns: seq<Insn>, pc: nat, r: Regs, packet: Bytes, i: nat) returns (r': Regs)
    requires i < |Visited(insns, pc, r, packet)|
    ensures var at := Visited(insns, pc, r, packet)[i];
            && Execute(insns, at, r', packet) == Execute(insns, pc, r, packet)
            && Visited(insns, at, r', packet) == Visited(insns, pc, r, packet)[i..]
    decreases |insns| - pc
  {
    if i == 0 {
      r' := r;
    } else {
      var (next, r1) := Next(insns, pc, r, packet).value;
      OneStep(insns, pc, r, packet);
      assert Visited(insns, pc, r, packet) == [pc] + Visited(insns, next, r1, packet);
      r' := VisitedIsRun(insns, next, r1, packet, i - 1);
    }
  }

  /** A run ends as it does from where its first step leads. */
  lemma OneStep(insns: seq<Insn>, pc: nat, r: Regs, packet: Bytes)
    requires pc < |insns| && Next(insns, pc, r, packet).Some?
    ensures var next := Next(insns, pc, r, packet).value;
            Execute(insns, next.0, next.1, packet) == Execute(insns, pc, r, packet)
  {
  }

  /** How a run ends, and how many instructions it fetches on top of `n`. */
  function Counted(insns: seq<Insn>, pc: nat, r: Regs, packet: Bytes, n: nat): (Stop, nat)
    decreases |insns| - pc
  {
    if pc >= |insns| then (OffEnd, n)
    else match Next(insns, pc, r, packet)
      case Some((pc', r')) => Counted(insns, pc', r', packet, n + 1)
      case None => (Execute(insns, pc, r, packet), n + 1)
  }

  lemma {:induction false} CountedIsRun(insns: seq<Insn>, pc: nat, r: Regs, packet: Bytes, n: nat)
    ensures Counted(insns, pc, r, packet, n) == (Execute(insns, pc, r, packet), n + |Visited(insns, pc, r, packet)|)
    decreases |insns| - pc
  {
    if pc < |insns| && Next(insns, pc, r, packet).Some? {
      var (pc', r') := Next(insns, pc, r, packet).value;
      OneStep(insns, pc, r, packet);
      CountedIsRun(insns, pc', r', packet, n + 1);
    }
  }

  /** The interpreter loop computes the machine's status. It fetches as many instructions as the machine
      visits, which is at most as many as there are. */
  method Run(insns: seq<Insn>, packet: Bytes) returns (status: u32, ghost fetched: nat)
    ensures status == Status(Execute(insns, 0, Regs(0, 0), packet))
    ensures fetched == |Visited(insns, 0, Regs(0, 0), packet)| <= |insns|
  {
    RunsForward(insns, 0, Regs(0, 0), packet);
    CountedIsRun(insns, 0, Regs(0, 0), packet, 0);
    fetched := 0;
    var a: u32 := 0;
    var x: u32 := 0;
    var pc: nat := 0;
    while true
      invariant Counted(insns, pc, Regs(a, x), packet, fetched) == Counted(insns, 0, Regs(0, 0), packet, 0)
      decreases |insns| - pc
    {
      if pc >= |insns| {
        return 0, fetched;
      }
      var insn := insns[pc];
      fetched := fetched + 1;
      match Decode(insn) {
        case LdhAbs(k) =>
          var v := ReadU16(packet, k);
          if v.None? { return 0, fetched; }
          a := v.value;
        case LdbAbs(k) =>
          var v := ReadU8(packet, k);
          if v.None? { return 0, fetched; }
          a := v.value;
        case LdhInd(k) =>
          var v := ReadU16(packet, x + k);
          if v.None? { return 0, fetched; }
          a := v.value;
        case LdwAbs(k) =>
          var v := ReadU32(packet, k);
          if v.None? { return 0, fetched; }
          a := v.value;
        case LdxMsh(k) =>
          var v := ReadU8(packet, k);
          if v.None? { return 0, fetched; }
          x := BitAnd(v.value, 0x0f) * 4;
        case AluAndK(k) =>
          a := BitAnd(a, k);
        case Ja(k) =>
          pc := pc + 1 + k;
          continue;
        case Jeq(k) =>
          pc := Branch(pc, insn, a == k);
          continue;
        case Jgt(k) =>
          pc := Branch(pc, insn, a > k);
          continue;
        case Jge(k) =>
          pc := Branch(pc, insn, a >= k);
          continue;
        case Jset(k) =>
          pc := Branch(pc, insn, BitAnd(a, k) != 0);
          continue;
        case Ret(k) =>
          return k, fetched;
        case Unknown =>
          return 0, fetched;
      }
      pc := pc + 1;
    }
  }

  /** A run that returns on a packet returns the same on every extension of that packet. */
  lemma {:induction false} ReturnsOnExtension(insns: seq<Insn>, pc: nat, r: Regs, packet: Bytes, more: Bytes)
    requires Execute(insns, pc, r, packet).Returned?
    ensures Execute(insns, pc, r, packet + more) == Execute(insns, pc, r, packet)
    decreases |insns| - pc
  {
    if pc < |insns| {
      var op := Decode(insns[pc]);
      if op.Ret? || op.Unknown? {
      } else if op.Ja? {
        ReturnsOnExtension(insns, pc + 1 + op.k, r, packet, more);
      } else if IsCondJump(op) {
        ReturnsOnExtension(insns, Branch(pc, insns[pc], Taken(op, r.a)), r, packet, more);
      } else {
        var next := Load(op, r, packet);
        assert Load(op, r, packet + more) == next;
        ReturnsOnExtension(insns, pc + 1, next.value, packet, more);
      }
    }
  }

  /** An accepted packet stays accepted, with the same status, whatever bytes follow it. */
  lemma AcceptsExtension(insns: seq<Insn>, packet: Bytes, more: Bytes)
    requires Status(Execute(insns, 0, Regs(0, 0), packet)) != 0
    ensures Status(Execute(insns, 0, Regs(0, 0), packet + more)) == Status(Execute(insns, 0, Regs(0, 0), packet))
  {
    ReturnsOnExtension(insns, 0, Regs(0, 0), packet, more);
  }
}
