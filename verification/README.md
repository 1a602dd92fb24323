# A verified model of the cbpf-rs compiler and its machine

`cbpf-rs` compiles tcpdump-style filter texts into classic BPF programs and runs them with a small interpreter. This project models the
whole pipeline in Dafny, stage by stage, and proves that each stage keeps the meaning of the one before:

text → tokens → expression → expanded expression → labelled stream in an `IrBuilder` → instructions → the status of a run on a packet.

`dafny verify dfyconfig.toml` checks everything.

## The system in the model's terms

**Meaning.** `Meaning.ExprMeaning` says what a filter asks of a packet, in header fields only: section 3.1 of RFC 791, section 3 of
RFC 8200, RFC 826, and the first two halfwords of the transport headers of section 3.1 of RFC 9293 and of RFC 768. There are three
answers. `Unknown` means that a field which has to be looked at lies past the end of the packet; it absorbs everything around it, `not`
included. `and` and `or` go from left to right and stop as soon as they can, and an IPv6 address is looked at word by word, so a packet
that is cut off inside an address can still be a definite no. `Desugar.SourceMeaning` adds what a primitive means that names no protocol
or no direction.

**Code.** Everything the generator emits is a short-circuit combination of tests, a `Decision.Cond`. `Decision.Lower` is its
continuation-passing code; the methods of `Codegen` emit into an `Irep.IrBuilder` object, in the order and with the branches of
`src/codegen.rs`, and each is proved to append exactly the code of the decision that `Filters` assigns to its leaf or expression.
`Irep.RunIr` runs a labelled stream symbolically; `Vm.Execute` is the machine, and `Vm.Run` is the interpreter's loop.

**The main results**

- `Frontend.TextPreservation`, `Compiler.SemanticPreservation`: a compiled program ends on every packet, truncated or not, as the meaning
  says: it returns the snap length, it returns zero, or it stops at a load past the end of the packet.
- `Language.ReadsExactly`, `Grammar.ParsesExactly`, `Spelling.LexesExactly`: lexing and parsing a text yields an expression, spans
  included, if and only if the characters spell tokens and the tokens spell the expression in one of the ways the language has for it.
- `Language.AcceptsAsWritten`, `Headers.AcceptsWhatItAsks`, `Headers.WrittenInHeaders`: what a program accepts, in offsets, ethertypes and
  protocol numbers written out as numbers.
- `Encapsulation.ProgramInside`: a filter about network and transport headers judges a packet the same raw, behind an Ethernet header, and
  behind a Linux cooked one.
- `Opcodes.StepsByNumber`, `Opcodes.AssembledInNumbers`: the machine and the programs handed out, in the numbers of the instruction set.
- `Decision.FragmentCorrect`, `Labels.LabelProtocol`, `Simulation.AssemblerSimulation`: the code generator's continuation-passing scheme,
  its labels, and the two-pass assembler, each for every input.
- `LeafProofs.SharedPrologueIsOr`, `PrefixProofs.Addr6TestDecides`, `PortHeaders.PortInHeaders`: the prologue shared by a
  source/destination pair, the word-split IPv6 comparison and the IPv4-then-IPv6 port fallback do what their plain forms do.
- `Simulation.OverflowIsExact`, `Limits.CompilesWithinReach`, `Limits.LongestDisplacement`, `Rejections.CompileFailsExactly`,
  `Chains.PortChainLimit`, `CodeSize.ExactCodeSize`: exactly when compilation fails and with which error, in terms of the expression
  alone, and how large programs and their jumps are.
- `LexErrors.LexFails`, `ErrorSpans.ErrorAtPrimitive`, `ErrorSpans.ErrorInText`: which texts the lexer refuses, and that every error
  points into the text, past parsing at a primitive that was written.
- `Layout.CookedProgramIsEthernetMoved`, `Needs.LeafNeedsExactly`, `SafeLength.NeverLoadsPastNeeds`, `SafeLength.SafeLengthIsTight`,
  `Laws.DeMorgan`, `Laws.NotIsComplement`, `Laws.OrCommutes`: how long a packet has to be, and laws between compiled programs, with the
  exact condition of those that can fail.
- `RoundTrip.TextRoundTrip`, `ParserProofs.ParsedIsSound`, `Lexer.RelexingIsStable`: the front end reads back what is written out, and
  its source spans nest in the order of the text.

**Where to look.** `Words`, `Errors`, `Ast`, `LinkType`, `Insn`: the data. `Vm`, `Irep`, `Backpatch`, `Codegen`, `Desugar`, `Lexer`,
`Literals`, `Parser`: the program, module by module as in the repository, mutable where it is mutable. `Meaning`, `Decision`, `Filters`,
`Printer`: the references the program is proved against. `Simulation`, `Labels`, `GateProofs`, `PrefixProofs`, `LeafProofs`, `Compiler`:
the back end's proof. `Reach` measures the jumps of a decision, `Limits` those of an expression; `Needs` measures the bytes a filter may
look at. `SafeLength`, `Laws`, `Layout`, `PortHeaders`, `CodeSize`, `Chains`, `Rejections`, `SourceSize`: what follows for compiled
programs. `LiteralProofs`, `LexErrors`, `ParserProofs`, `RoundTrip`, `Frontend`, `ErrorSpans`: the front end and the whole. `Opcodes`,
`Spelling`, `Notation`, `Grammar`, `Headers`: what codes, characters, literals, phrases and filters stand for, each said a second time
without the program's own tables and functions, and proved to be what the program does. `Language`, `Encapsulation`, `ParseErrors` follow
from these.

**Two accounts of every table.** The codes of the instructions, the characters of the tokens, the keywords and spellings of the
grammar, the digits and names of the literals, the protocol and direction words, and the offsets of the headers each stand twice: as the
program has them, in `Insn`, `Lexer`, `Parser`, `Literals`, `Desugar`, `LinkType` and `Meaning`, and as numbers and phrases in `Opcodes`,
`Spelling`, `Grammar`, `Notation` and `Headers`. The second account is stated without the first, and the lemmas say that they agree on
every input.

**Laws on every packet, and exactly where the others fail.** `not not e` and `e`, and the two sides of De Morgan's laws, compile to the
same instructions or to the same error; only `not (a or b)` on a source/destination pair is shorter than `not a and not b`, and there
both sides fail with the same error or both compile and end alike on every packet (`Laws.DeMorganOrEnds`). For a snap length other than
zero, `not` is the complement of its operand on exactly the packets that settle the operand (`Laws.NotIsComplement`); with a snap length
of zero every program returns zero. The order of an `and` never shows in the status; it decides between a returned zero and a bad load
exactly when one operand is false and the other cannot be settled (`Laws.AndStatusCommutes`, `Laws.AndCommutes`). The order of an `or`
does show in the status, for a snap length other than zero exactly when one operand is true and the other cannot be settled
(`Laws.OrCommutes`); on one byte `multicast or ether proto 0x800` accepts and `ether proto 0x800 or multicast` rejects
(`Laws.OrNeedsItsOrder`). A packet that holds every byte an expression may look at, `Needs.ExprNeeds`, settles it, and for a single leaf
no smaller number would do (`Needs.LeafNeedsExactly`). That number is at most 64 behind the link-layer header, and on every link type one
byte less is not enough: `tcp dst port 80` then ends at a bad load (`SafeLength.SafeLengthIsTight`).

**Where comments and code disagree, the code is followed.** `src/irep.rs:63-66` says that the unconditional jump is never emitted, but
`src/codegen.rs:488-495` emits it for an IPv6 network of prefix length zero. `src/error.rs:46-47` speaks of roughly 85 primitives as the
limit of an `or`; the limit is the longest conditional jump (`Limits.CompilesWithinReach`), and of bare `port` filters no more than three
can be joined, on raw packets no more than two (`Chains.PortChainLimit`).
`src/codegen.rs:267` calls `ip6` not implemented; the code rejects only an IPv4 literal behind `ip6`. `src/codegen.rs:208-210` calls a
missing prefix /32; for an IPv6 address it is 128.

**Parameters.** Reading and writing IPv6 address texts belongs to the standard library and is a parameter (`Literals.Ipv6Notation`); the
printing results assume that what it writes it reads back (`Printer.WritesIpv6`), which can be had
(`LiteralProofs.SomeNotationReadsBack`). Precedence is the parser's own, `not` before `and`
before `or` (`src/parser.rs:3`).

## Model

| member | source | states |
|---|---|---|
| Frontend.Compile | src/lib.rs:40-48 | The whole pipeline on any text: lexing, parsing, expansion, generation, assembly, the first error of a stage ending it |
| Frontend.ShortTextsFit | src/backpatch.rs:18 | Of every text of up to 18 million characters the code fits the assembler's counts, which is all the pipeline assumes |
| Frontend.TextPreservation | src/lib.rs:40-48 | A text that compiles has parsed to an expression in range, and on every packet its program ends as the meaning of that expression says |
| Language.ReadsExactly | src/lib.rs:41-42 | Lexing and parsing a text yields an expression, spans included, if and only if its characters spell tokens and the tokens spell that expression |
| Language.WrittenOnce | src/parser.rs:1-7 | No text is written in two ways |
| Language.EndsAsWritten | src/lib.rs:40-48 | Compiled and run, a text judges every packet, however short, by what is written there |
| Language.AcceptsAsWritten | src/program.rs:27-29 | A packet long enough to settle everything yields the snap length if and only if its header fields, at numbered offsets, have what is written, and zero otherwise |
| Frontend.Judge | src/program.rs:27-29 | Compiling and running a text yields the compiler's error, or, when it compiles, the snap length exactly when what was written holds of the packet and otherwise zero |
| ErrorSpans.ErrorInText | src/error.rs:7-8 | Whatever is wrong with a text, the error's span lies within it |
| ErrorSpans.ErrorAtPrimitive | src/lib.rs:43-45 | When the text parses, whatever the generator or the assembler refuses is reported at the span of a primitive that was written |
| ErrorSpans.CondComesFrom | src/codegen.rs:211-252 | Every test of an expression's decision carries the span of one of its leaves |
| Frontend.WrittenExpressionRuns | src/lib.rs:40-48 | Any expression written out as text, compiled and run judges every packet as the expression means |
| Frontend.RewritingKeepsMeaning | src/parser.rs:1-7 | Writing out what a text parses to, with parentheses only where needed, gives a text with the same expression and the same meaning on every packet |
| Frontend.ParsedTextInRange | src/parser.rs:374-382 | Whatever a text parses to is within the ranges the back end relies on, ports in order and prefixes within their addresses |
| Frontend.SpansMeanNothing | src/ast.rs:8-25 | Source offsets have no influence on meaning |
| Compiler.SemanticPreservation | src/codegen.rs:87-192 | For every expanded expression, link type, snap length and packet: the compiled program returns the snap length, returns zero or stops at a bad load exactly as the three-valued meaning says; what a leaf means is tied to numbered offsets by `Headers.LeafInHeaders` and `Encapsulation.MeaningInside` |
| Compiler.CompileExpanded | src/lib.rs:44-45 | Generation followed by assembly, with the error of whichever fails |
| Compiler.Filter | src/program.rs:27-29 | Compiling and running an expanded expression gives the compiler's error exactly when there is one, otherwise the snap length when the meaning holds and zero when not |
| Compiler.GeneratedIsWellPlaced | src/codegen.rs:87-142 | Every generated stream places each label it allocated exactly once and after every jump naming it, meets the assembler's assumptions, and ends in a return |
| Compiler.CompiledProgramIsSound | src/backpatch.rs:10-65 | Every jump of a compiled program lands inside it, every opcode is known, its last instruction is `ret #0`, and no run falls off its end |
| Codegen.Generate | src/codegen.rs:87-142 | Yields the decision of the expression between the accepting and the rejecting return, or the expression's error; where the fields it tests lie on each link type is stated in numbers by `Headers.LeafInHeaders` |
| Codegen.CompileExpr | src/codegen.rs:149-192 | Appends to the builder exactly the code of the expression's decision with these two exits, allocating labels from the builder's counter, or returns the expression's error |
| Codegen.CompileAnd | src/codegen.rs:154-167 | The `and` case: the left side's true edge leads to a fresh label placed before the right side |
| Codegen.CompileOr | src/codegen.rs:177-190 | The generic `or` case: the left side's false edge leads to a fresh label placed before the right side |
| Codegen.CompilePrimitive | src/codegen.rs:211-228 | Appends the decision of a single leaf, a missing prefix being the whole address |
| Codegen.CompileDirPair | src/codegen.rs:233-252 | Appends the decision of a source/destination pair: gates once, then one direction and the other |
| Codegen.CompileAddr | src/codegen.rs:332-362 | Gates, then the masked comparison of one direction; an IPv6 literal takes the IPv6 path |
| Codegen.CompileAddrPair | src/codegen.rs:366-412 | Gates once, then the comparison of the first direction or else of the second |
| Codegen.CompileAddr6 | src/codegen.rs:416-467 | IPv6 addresses only behind `ip6`; the gate once, then one or two directions |
| Codegen.EmitAddr6Directions | src/codegen.rs:447-466 | One direction's comparison, or the first and, behind a fresh label, the second |
| Codegen.EmitAddr6Terminal | src/codegen.rs:474-527 | The loop over the words a prefix reaches appends exactly the word-by-word decision; prefix zero appends one unconditional jump |
| Codegen.EmitAddr6Word | src/codegen.rs:497-526 | One word: load, mask unless whole, compare with the masked word of the address |
| Codegen.EmitAddrTerminal | src/codegen.rs:531-559 | The IPv4 comparison of one direction, the mask left out when absent or all ones |
| Codegen.CompilePort | src/codegen.rs:580-605 | The IPv4 attempt, and behind its false edge the IPv6 attempt; only transports have ports |
| Codegen.CompilePortPair | src/codegen.rs:609-635 | The same for two directions, each attempt trying both |
| Codegen.CompilePort4 | src/codegen.rs:639-660 | Gates, the fragment gate, the header length in X, the port of one direction |
| Codegen.CompilePort4Pair | src/codegen.rs:664-700 | The same prologue once, then both directions with X still set |
| Codegen.EmitPort4Directions | src/codegen.rs:683-699 | The header length, the first direction, and behind a fresh label the second |
| Codegen.CompilePort6 | src/codegen.rs:710-728 | The IPv6 gates and the port behind the fixed header |
| Codegen.CompilePort6Pair | src/codegen.rs:732-764 | The same for two directions |
| Codegen.EmitNotFragmentGate | src/codegen.rs:769-785 | Lets only first fragments through |
| Codegen.EmitPortCompare | src/codegen.rs:789-820 | Compares the loaded port with `lo..=hi`: one equality when they are equal, else a lower and a swapped upper comparison |
| Codegen.EmitPortTerminal | src/codegen.rs:831-847 | The X-relative load of a port and its comparison |
| Codegen.EmitPort6Terminal | src/codegen.rs:852-870 | The absolute load of a port and its comparison |
| Codegen.CompileEther | src/codegen.rs:881-907 | Link-layer leaves on Ethernet, and their rejection on every other link type |
| Codegen.CompileEtherHost | src/codegen.rs:910-937 | One hardware address field, or the destination and then the source |
| Codegen.CompileEtherProto | src/codegen.rs:942-962 | The ethertype compared; the field is always there on Ethernet |
| Codegen.CompileEtherMulticast | src/codegen.rs:968-984 | The group bit of the destination address tested |
| Codegen.EmitMacEq | src/codegen.rs:989-1013 | A hardware address as a word and a halfword |
| Codegen.EmitEthertypeAndProtoGates | src/codegen.rs:1039-1058 | The network-layer gate and, if asked for, the protocol gate |
| Codegen.EmitL3Gate | src/codegen.rs:1066-1080 | The ethertype or the version nibble; the arm for ARP and RARP without an ethertype field is never reached |
| Codegen.GateIpVersion | src/codegen.rs:1084-1098 | The version nibble gate |
| Codegen.GateLdhEq | src/codegen.rs:1102-1114 | A halfword gate that falls through when it holds |
| Codegen.GateLdbEq | src/codegen.rs:1117-1129 | A byte gate that falls through when it holds |
| Irep.IrBuilder.constructor | src/irep.rs:81-86 | An empty stream with no labels |
| Irep.IrBuilder.NewLabel | src/irep.rs:89-93 | A label never handed out before; the stream is unchanged |
| Irep.IrBuilder.Place | src/irep.rs:96-98 | Appends the mark of a label and nothing else |
| Irep.IrBuilder.Emit | src/irep.rs:100-102 | Appends one real instruction and nothing else |
| Irep.IrBuilder.Finish | src/irep.rs:106-111 | The stream and the label count |
| Decision.FragmentCorrect | src/codegen.rs:144-192 | From any registers and before any following code, the code of a decision goes to its true exit, to its false exit, or stops at a bad load, as the decision says, for all nestings |
| Decision.PairCorrect | src/codegen.rs:154-190 | The two-sided case: the fresh label in the middle leads on to the right side, every other edge leaves past it |
| Labels.LowerDisciplined | src/irep.rs:88-112 | A fragment's labels are exactly the ones between its first and next number, each placed once, behind every jump naming it |
| Labels.LabelProtocol | src/codegen.rs:95-141 | The same of a whole program: every label allocated is placed once, after all its uses, and the last instruction returns zero |
| Labels.WrappedCorrect | src/codegen.rs:108-141 | A whole stream returns the snap length, returns zero or stops at a bad load as its decision says |
| Backpatch.Assemble | src/backpatch.rs:10-28 | The two passes over an offset table yield the lowered instructions in order, or the first error |
| Backpatch.LoweredStops | src/backpatch.rs:24-27 | Collecting the lowered instructions stops at the first error |
| Simulation.WellPlacedResolvable | src/backpatch.rs:55-65 | When labels are placed once and after their uses, the assembler never meets an unplaced label or a backward jump |
| Simulation.LoweredDecodes | src/backpatch.rs:67-98 | A lowered instruction decodes to the operation it came from, and its displacements lead to its labels' offsets; in numbers by `Opcodes.AssembledInNumbers` |
| Opcodes.AssembledInNumbers | src/program.rs:22 | Every instruction handed out has the number of its operation as its code, its immediate or operand in `k`, and the distances to its labels in `jt` and `jf`, or for an unconditional jump in `k` |
| Simulation.AssemblerSimulation | src/backpatch.rs:10-98 | On every packet the assembled program ends exactly as the labelled stream does, consecutive marks included |
| Simulation.OverflowIsExact | src/backpatch.rs:30-53 | Assembly fails if and only if some conditional jump is longer than 255, and reports the first one, true branch before false, with its true length; unconditional jumps never fail |
| Simulation.SmallProgramsAssemble | src/backpatch.rs:31-47 | A program of at most 257 instructions that ends in one always assembles |
| Simulation.AssembledStaysInside | src/backpatch.rs:55-65 | Every resolved target is an instruction of the program, every opcode decodes, the last instruction returns |
| Simulation.InsideRunsEndWell | src/vm.rs:24-29 | Such a program never runs off its end and never meets an unknown opcode |
| Vm.Run | src/vm.rs:19-86 | The interpreter's loop computes the status of the machine: the value returned, or zero for a bad load, an end without return or an unknown opcode; it fetches as many instructions as the machine visits, at most as many as there are; each step in numbers by `Opcodes.StepsByNumber` |
| Opcodes.DecodesByNumber | src/insn.rs:187-203 | Each of the twelve codes the machine knows, as a number, is its operation, and any other code is none |
| Opcodes.StepsByNumber | src/vm.rs:24-83 | One step of any program, by the number of its code: what is returned, how far is jumped and on which comparison, which bytes are loaded, most significant first, and what is rejected |
| Vm.RunsForward | src/vm.rs:88-95 | For arbitrary instructions the program counter strictly increases, so a run visits at most as many instructions as there are |
| Vm.VisitedIsRun | src/vm.rs:19-86 | From every instruction a run visits, with the registers it is reached with, the run ends as the whole run does and visits the rest |
| Vm.ReturnsOnExtension | src/vm.rs:97-109 | A run that returns on a packet returns the same on every extension of the packet |
| Vm.AcceptsExtension | src/vm.rs:19-109 | An accepted packet stays accepted, with the same status, whatever bytes follow |
| GateProofs.L3GateDecides | src/codegen.rs:1066-1098 | The network gate settles whether the packet carries the protocol, by ethertype or by version |
| GateProofs.GatesDecide | src/codegen.rs:1039-1058 | Network and protocol gates in front of a test settle their conjunction with it |
| GateProofs.NotFragmentDecides | src/codegen.rs:766-785 | The fragment gate settles whether the fragment offset is zero |
| GateProofs.MacTestDecides | src/codegen.rs:986-1013 | The split comparison settles equality of all six octets |
| GateProofs.EtherDecides | src/codegen.rs:881-984 | Every link-layer leaf settles its question |
| PrefixProofs.NetmaskIs | src/codegen.rs:1131-1139 | The netmask is `prefix` ones followed by zeros, the shift of zero never taken |
| PrefixProofs.MaskAgrees | src/codegen.rs:355-360 | Equality under the mask is equality of the top `prefix` bits |
| PrefixProofs.AddrTestDecides | src/codegen.rs:531-559 | The IPv4 comparison settles equality of the top `prefix` bits of the address |
| PrefixProofs.Addr6TestDecides | src/codegen.rs:474-527 | For every address and every prefix of 0 to 128, the word loop settles equality of the top `prefix` bits of the 128-bit address where the words it needs are there; on shorter packets a mismatch in the words present says no; prefix zero reads nothing |
| PrefixProofs.WholeAddressPrefix | src/codegen.rs:470-473 | When the address is all there, the question is one about the whole 128-bit number shifted down |
| LeafProofs.Ports4Decide | src/codegen.rs:822-847 | The IPv4 ports of both directions are settled with one header-length load: X still holds it at the second |
| LeafProofs.PortsInterleave | src/codegen.rs:607-635 | Both directions within IPv4 and then within IPv6 is the same as both protocols for one direction and then the other, truncated packets included |
| LeafProofs.PrimDecides | src/codegen.rs:211-252 | Every leaf, and every source/destination pair, settles its meaning |
| LeafProofs.SharedPrologueIsOr | src/codegen.rs:168-252 | The shared prologue and the generic `or` of the two leaves settle the same question on every packet |
| CodeSize.OrOfLeaves | src/codegen.rs:168-176 | The prologue is shared between exactly the leaves of the same protocol and type in opposite directions |
| LeafProofs.ExprDecides | src/codegen.rs:149-192 | The decision of every expression settles its meaning |
| PortHeaders.PortInHeaders | src/codegen.rs:577-870 | A port or range matches exactly an IPv4 first fragment of the transport with such a port four times IHL bytes in, or an IPv6 packet whose next header is the transport with such a port at offset 40 |
| Headers.LeafInHeaders | src/codegen.rs:254-870 | On every packet, however short, and every link type, a leaf of each protocol holds if and only if the ethertype or version, the protocol number and the address or port stand at these numbered offsets; for ARP and RARP at 28 and 38 on Ethernet |
| Encapsulation.MeaningInside | src/linktype.rs:47-67 | Behind any 12 bytes and the ethertype of its version on Ethernet, or any 14 bytes and the ethertype in a cooked capture, a filter without link-layer, ARP and RARP leaves means what it means on the raw packet |
| Encapsulation.ProgramInside | src/linktype.rs:47-67 | What compiles for raw packets compiles for every framing, and on a frame its program ends as the raw program ends on the packet inside |
| SafeLength.Settled | src/vm.rs:40-56 | On packets of at least 64 bytes behind the link-layer header every compilable expression has a definite answer |
| Needs.SettledByNeeds | src/vm.rs:97-109 | A packet with every byte the expression may look at, the furthest of its leaves' fields, gives it a definite answer |
| Needs.NeedsBounded | src/codegen.rs:639-660 | No compilable expression may look at more than 64 bytes behind the link-layer header |
| Needs.LeafNeedsExactly | src/codegen.rs:211-252 | For every leaf that compiles, packets of at least `n` bytes all settle it if and only if `n` is at least the end of the furthest field it may look at |
| SafeLength.NeverLoadsPastNeeds | src/vm.rs:40-56 | A compiled program never loads past the end of a packet that holds what its expression needs |
| SafeLength.LeafReturnsExactly | src/vm.rs:40-56 | A leaf's program returns on every packet of at least `n` bytes if and only if `n` is at least what the leaf needs |
| SafeLength.NeverLoadsOutOfBounds | src/vm.rs:40-56 | Nor past the end of any packet of at least 64 bytes behind the link-layer header |
| SafeLength.SafeLengthIsTight | src/codegen.rs:639-660 | One byte less is not enough: on every link type `tcp dst port 80` compiles and ends at a bad load on every first TCP fragment behind a 60-byte header that has only 63 bytes |
| SafeLength.SafeLengthIsReached | src/codegen.rs:639-660 | There are such packets on every link type |
| Laws.NotIsComplement | src/codegen.rs:153 | For a nonzero snap length a compiled `not` accepts exactly what its operand rejects if and only if the packet settles the operand |
| Laws.NotIsComplementOnLong | src/codegen.rs:153 | Which every long enough packet does |
| Laws.NotNeedsItsField | src/codegen.rs:153 | On one byte `ether proto 0x800` and its negation both reject |
| Laws.NotNotIsSame | src/codegen.rs:153 | A double negation compiles to the same instructions or to the same error |
| Laws.DeMorgan | src/codegen.rs:153-190 | `not (a and b)` and `not a or not b` compile to the same instructions or to the same error |
| Laws.DeMorganOr | src/codegen.rs:153-190 | `not (a or b)` and `not a and not b` likewise, unless the two operands are a source/destination pair |
| Laws.DeMorganOrEnds | src/codegen.rs:153-190 | For every two operands, pairs included, both sides fail with the same error or both compile and end alike on every packet |
| Laws.AndStatusCommutes | src/vm.rs:37-80 | On every packet the two orders of an `and` have the same status |
| Laws.AndCommutes | src/codegen.rs:154-167 | They end alike if and only if it is not so that one operand is false and the other cannot be settled |
| Laws.AndCommutesOnLong | src/codegen.rs:154-167 | On long enough packets they end alike |
| Laws.OrCommutes | src/codegen.rs:168-190 | For a nonzero snap length the two orders of an `or` have the same status, and for any they end alike, if and only if it is not so that one operand is true and the other cannot be settled |
| Laws.OrCommutesOnLong | src/codegen.rs:168-190 | On long enough packets they end alike |
| Laws.AndNeedsItsOrder | src/codegen.rs:154-167 | Two filters and a packet: both orders of the `and` compile, one returns zero and the other stops at a bad load |
| Laws.OrNeedsItsOrder | src/codegen.rs:168-190 | Two filters and a packet: both orders of the `or` compile, one accepts and the other rejects |
| Layout.MeaningMoves | src/linktype.rs:47-67 | An expression without link-layer leaves means on a Linux cooked packet what it means over Ethernet without the first two bytes |
| Layout.CookedProgramIsEthernetMoved | src/linktype.rs:47-67 | The two link types fail with the same error or compile to the same instructions, every load two bytes further on |
| Layout.CookedRunsLikeEthernet | src/linktype.rs:47-67 | And the two programs end alike on those packets |
| CodeSize.ExactCodeSize | src/codegen.rs:87-192 | The program has exactly as many instructions as an additive size of the expression, shared pairs counted once, plus two |
| CodeSize.SmallExpressionsCompile | src/backpatch.rs:31-47 | An expression without an invalid leaf and of size at most 255 always compiles |
| Reach.FragmentReach | src/backpatch.rs:31-47 | For every bound, the first conditional jump of a fragment's emitted instructions that is longer, with its index, its length and its span, is the one computed from the decision and the distances to its exits |
| Reach.LongestOfProgram | src/backpatch.rs:31-47 | For every bound, some conditional jump of a whole program is longer if and only if the number computed from its decision is: that number is the length of the longest |
| Reach.AssemblesWithinReach | src/backpatch.rs:31-47 | A whole program is assembled if and only if the longest jump of its decision is at most 255 |
| Limits.ExprReaches | src/codegen.rs:149-870 | The number as arithmetic over the leaves of an expression and the distances to its two exits |
| Limits.ReachIsLongest | src/backpatch.rs:31-47 | For every bound, what is generated for an expression has a longer conditional jump if and only if that arithmetic exceeds the bound, and the first such jump is computed from the expression |
| Limits.LongestDisplacement | src/backpatch.rs:31-47 | In a compiled program no displacement exceeds that number and, unless it is zero, some displacement equals it |
| Limits.CompilesWithinReach | src/backpatch.rs:31-47 | What the generator accepts compiles if and only if that number is at most 255 |
| Limits.ReportsFirstJump | src/backpatch.rs:38-46 | Otherwise the error carries the index, the length and the span of the first jump over 255, all computed from the expression |
| Chains.FirstOperandFails | src/backpatch.rs:31-47 | A chain never compiles when any jump of its first operand, the earliest included, is too long to pass the others |
| Chains.LongChainFails | src/backpatch.rs:31-47 | In particular a chain of `or`s, or of `and`s, that takes more than 255 instructions behind its first operand never compiles, unless that operand ends in an unconditional match |
| Chains.PortChainLimit | src/error.rs:44-50 | `port` filters joined by `or` compile if and only if there are at most three of them, on raw packets at most two |
| Chains.ChainSize | src/desugar.rs:74-120 | Such a chain takes 79 instructions for each filter, 89 on raw packets, and its longest jump passes all but the first comparison of its first filter |
| CodeSize.FitsBySize | src/backpatch.rs:18 | The 32-bit instruction counts suffice for every expression of size below 2^31 - 2 |
| SourceSize.ExpandedBound | src/desugar.rs:74-108 | An expression takes at most 114 instructions for each primitive it was written with |
| SourceSize.ShortTextFits | src/backpatch.rs:18 | What a text of up to 18 million characters parses to is in range and fits the assembler's counts |
| Rejections.GenerationErrors | src/codegen.rs:268-325 | Generation fails if and only if some leaf's protocol, type and link type do not combine, and reports the leftmost such leaf |
| Rejections.CompileFailsExactly | src/lib.rs:44-45 | Compilation fails if and only if a leaf is invalid or the longest conditional jump is over 255; the leftmost invalid leaf is reported, or if there is none the first jump that is too long, as computed from the expression |
| Desugar.OrReduce | src/desugar.rs:110-120 | The loop yields the left fold of `or` |
| Desugar.ExpandPrimitive | src/desugar.rs:74-108 | The nested loops yield the fold over all protocols, outside, and directions, inside; which protocols those are is stated in numbers by `Headers.WrittenInHeaders` and `Headers.AskedInHeaders` |
| Desugar.Expand | src/desugar.rs:64-72 | Expansion of every primitive, structure kept; what the result asks of a packet is stated in numbers by `Headers.MeansWhatItAsks` |
| Desugar.ChoicesCover | src/desugar.rs:74-108 | The expanded leaves are exactly the primitives that settle what was left open; with `Headers.ChoiceIsAsked` and `Headers.AskedIsChosen`, exactly those that ask for what was written |
| Desugar.DefaultOrder | src/desugar.rs:75-94 | The order in which a primitive without qualifiers is tried |
| Desugar.FirstOfInOrder | src/desugar.rs:110-120 | The first answer that is not no, in order: what precedes it is all no |
| Desugar.ExpansionPreservesMeaning | src/desugar.rs:64-120 | Expansion keeps the meaning: a primitive asks its choices in order |
| Desugar.PrimitiveIsAnyChoice | src/desugar.rs:74-108 | On long enough packets a primitive holds exactly when some protocol and direction it may stand for does |
| Desugar.SourcePreservation | src/lib.rs:43-45 | Expansion, generation and assembly together keep the meaning of what was written |
| Desugar.PrimitiveProgram | src/lib.rs:43-45 | The compiled program of a primitive accepts a long enough packet exactly when some protocol and direction matches |
| Headers.WrittenInHeaders | src/desugar.rs:31-44 | On every packet, a primitive with its protocol word and direction holds if and only if its fields do: `tcp` is IPv4 or IPv6 with protocol number 6 for a port and IPv4 with 6 for an address, `udp` 17, `icmp` 1, `ip` ethertype 0x800, `ip6` 0x86dd, `arp` 0x806 |
| Headers.WrittenProgram | src/lib.rs:43-45 | And its compiled program returns the snap length on exactly those packets |
| Headers.AskedInHeaders | src/desugar.rs:74-108 | On long enough packets, what leaves out its protocol or its direction asks whether some direction and some protocol it may stand for has the fields: TCP, UDP or SCTP for a port, IPv4, ARP or RARP for an IPv4 address, IPv6 for an IPv6 address |
| Headers.OthersRefused | src/codegen.rs:254-325 | A protocol word that does not go with the type makes every choice one that is refused |
| Headers.CompiledIsSensible | src/codegen.rs:254-325 | Only filters whose protocol words go with their types, and that ask about the link layer on Ethernet only, get through the generator |
| Headers.MeansWhatItAsks | src/desugar.rs:64-120 | On long enough packets a whole filter means what its connectives, read as those of logic, make of its primitives' fields |
| Headers.AcceptsWhatItAsks | src/lib.rs:43-45 | And the compiled program of any filter accepts those packets and no others |
| Lexer.Lex | src/lexer.rs:34-135 | The loop yields, for every text of Unicode characters, its tokens with their byte offsets and `Eof` last, or the first offending character; which tokens those are is stated by `Spelling.LexesExactly` |
| Spelling.LexesExactly | src/lexer.rs:34-135 | The lexer yields a sequence of tokens if and only if the text is made of them: each stands where its characters spell it, `&&` for `and`, `||` for `or`, `!` for `not`, a word over its whole run, nothing but Unicode white space lies between, and `Eof` is at the end |
| Spelling.OffsetsCountBytes | src/lexer.rs:37-118 | An offset is the number of UTF-8 bytes in front of it |
| Lexer.LexInOrder | src/lexer.rs:34-135 | Tokens stand in order, do not overlap, are not empty, and `Eof` is last and only there |
| Lexer.LexCovers | src/lexer.rs:39-42 | A character is covered by a token exactly when it is not whitespace |
| Lexer.LexReadable | src/lexer.rs:30-32 | Every word token is a nonempty run of word characters |
| Lexer.LexRendered | src/lexer.rs:98-118 | Text that spells out readable tags, one space after each, lexes to those tags |
| Lexer.RelexingIsStable | src/lexer.rs:34-135 | Writing out the tokens of any text and lexing that gives the same tags |
| LexErrors.LexFails | src/lexer.rs:34-135 | A text is refused if and only if it has a character that is of no token and no white space, or an odd number of `&` or of `|` in a row, and the error is at the first such character, of a run at its last |
| Literals.ParseIpv4Octets | src/parser.rs:422-440 | The loop over an octet array accepts exactly four dotted numbers of at most 255 |
| Literals.ParseMacLiteral | src/parser.rs:519-540 | The loop over an octet array accepts exactly six two-digit hexadecimal octets |
| Literals.ParseAddrLiteral | src/parser.rs:445-481 | IPv6 or IPv4 by the presence of a colon, a prefix only where allowed and within the address |
| LiteralProofs.ReadsDecimal | src/parser.rs:416-419 | A number in range is read back from its decimal digits |
| LiteralProofs.ReadsDotted | src/parser.rs:422-440 | An IPv4 address is read back from its dotted form |
| LiteralProofs.ReadsNet | src/parser.rs:445-516 | An address, with or without a prefix, is read back from its text |
| LiteralProofs.ReadsMac | src/parser.rs:519-540 | A hardware address is read back from its text |
| LiteralProofs.ReadsEthertype | src/parser.rs:548-563 | A numeric ethertype is read back and never taken for a name or for hexadecimal |
| LiteralProofs.SomeNotationReadsBack | src/parser.rs:445-481 | There is a notation of IPv6 addresses that reads back what it writes, as the printing results assume |
| Notation.ReadsNumber | src/parser.rs:416-419 | A text is a number if and only if it is digits of the radix, each counting by its place, with or without a plus sign, and no more than the bound |
| Notation.ReadsQuad | src/parser.rs:422-440 | A text is an IPv4 address if and only if it is four such numbers between three dots, each an octet of it |
| Notation.ReadsColonHex | src/parser.rs:519-540 | A text is a hardware address if and only if it is six two-character hexadecimal numbers between five colons; otherwise it is quoted in the error |
| Notation.ReadsPort | src/parser.rs:416-419 | A text is a port if and only if it is a decimal number below 65536; otherwise it is quoted in the error |
| Notation.ReadsNetwork | src/parser.rs:445-516 | A text is an address, with or without a prefix length behind a slash, if and only if it is written so, the prefix only where it is allowed and no longer than the address |
| Notation.InvalidNetwork | src/parser.rs:455-500 | Any other text is quoted in the error, as IPv6 if it has a colon |
| Notation.ReadsEthertypeText | src/parser.rs:548-563 | A text is an ethertype if and only if it is one of the five names in either case, a decimal number, or hexadecimal behind `0x` or `0X`; otherwise it is quoted in the error |
| Parser.Parse | src/parser.rs:17-42 | The parser object reads the whole token sequence as the grammar functions do, with their error otherwise; what they read is stated by `Grammar.ParsesExactly` |
| Grammar.ParsesExactly | src/parser.rs:17-412 | Parsing yields an expression, spans included, if and only if the tokens spell it: `or` under `and` under `not`, joined from the left, any parentheses, every qualifier and keyword and both ways of writing a link-layer direction |
| Grammar.ParsedIsSpelled | src/parser.rs:17-42 | Whatever is parsed is spelled by the tokens |
| Grammar.SpelledIsParsed | src/parser.rs:17-42 | Whatever the tokens spell is what is parsed |
| ParseErrors.ParseErrorsJustified | src/parser.rs:17-563 | Every parse error is about a token that is wrong as the error says: quoted as it stands, no address, number or name where one has to be, a range whose ends are reversed, a parenthesis unmatched, or the end of the text |
| Parser.TokenParser.constructor | src/parser.rs:31 | A parser at the first token |
| Parser.TokenParser.Advance | src/parser.rs:78-84 | One token further, never past the final `Eof` |
| Parser.TokenParser.ExpectWord | src/parser.rs:109-128 | A word, or the error of what is there instead |
| Parser.TokenParser.ExpectDash | src/parser.rs:131-151 | A dash, or the error of what is there instead |
| Parser.TokenParser.ParseOr | src/parser.rs:154-166 | The loop builds the left-associative `or` that the grammar reads here, and stands behind it |
| Parser.TokenParser.ParseAnd | src/parser.rs:169-178 | The loop builds the left-associative `and` that the grammar reads here |
| Parser.TokenParser.ParseUnary | src/parser.rs:181-191 | Any number of `not`, then a primary |
| Parser.TokenParser.ParsePrimary | src/parser.rs:195-235 | A group, a link-layer primitive or a primitive, or the error of what is there instead |
| Parser.TokenParser.TryParseProto | src/parser.rs:239-251 | Consumes a protocol word and only that |
| Parser.TokenParser.TryParseDir | src/parser.rs:255-263 | Consumes a direction word and only that |
| Parser.TokenParser.TryConsumeWord | src/parser.rs:267-274 | Consumes the given word and only that |
| Parser.TokenParser.ParseEtherPrimitive | src/parser.rs:280-342 | A link-layer primitive with its span |
| Parser.TokenParser.ParseEtherKind | src/parser.rs:302-335 | What may follow `ether`; which words those are is stated by `Grammar.ParsesExactly` through `Grammar.EtherPhrase` |
| Parser.TokenParser.ParsePrimitive | src/parser.rs:346-412 | Optional protocol, optional direction, type and value, with its span |
| Parser.TokenParser.ParseType | src/parser.rs:352-403 | The type keywords and their values |
| Parser.TokenParser.ParsePortRange | src/parser.rs:367-384 | Two ports and a dash, in order |
| ParserProofs.ParsedIsSound | src/parser.rs:154-191 | Every parsed expression has its prefixes and ranges in range, has fewer primitives than there are tokens, and every node's span contains its children's, which stand apart and in order |
| ParserProofs.TypeInRange | src/parser.rs:346-481 | No prefix longer than its address and no reversed port range gets through |
| ParserProofs.ParseErrorInside | src/parser.rs:17-42 | The span of every parse error lies within the tokens |
| ParserProofs.SidesSound | src/parser.rs:158-164 | An operator between two sound expressions makes a sound expression spanning both |
| RoundTrip.ReadsPrint | src/parser.rs:154-235 | An expression printed for a precedence level is read back at that level, whatever tokens follow that do not bind tighter |
| RoundTrip.PrintedParses | src/parser.rs:17-42 | Parsing printed tokens gives back the expression, but for its spans |
| RoundTrip.TextRoundTrip | src/parser.rs:17-42 | Lexing and parsing the printed text gives back the expression, but for its spans |
| RoundTrip.PrintIsInjective | src/parser.rs:1-7 | Expressions printed alike are alike, but for their spans |
| RoundTrip.PrintClean | src/lexer.rs:30-32 | Every token an expression is printed with is one the lexer can read |

## Left out

- Sockets and the kernel: `src/attach/mod.rs` and `examples/kernel_diff.rs` are system calls.
- Presentation: `Display` of instructions and programs, `examples/cbpf_dump.rs`, and the wording of error messages; errors are modelled by their kind, their span and their numbers.
- Equivalence with libpcap, tcpdump or the kernel: none of them is part of the repository.
- `LinkType::from_dlt` and `to_dlt`: three constants.
- Literals.ParseAddrLiteral: the reading of an IPv6 address itself is `core::net::Ipv6Addr`'s and is a parameter.
- Literals.ParseMacLiteral: a part's length is counted in characters, which for the lexer's words is its length in bytes.
- Frontend.Compile: assumes that the code of what the text parses to fits the assembler's 32-bit instruction counts (`Frontend.ShortTextsFit`); beyond that the source's casts would truncate.
- Frontend.TextPreservation: the same assumption.
- Frontend.WrittenExpressionRuns: the same assumption, of the text that is written out.
- Frontend.Judge: the same assumption.
- Backpatch.Assemble: assumes a stream of fewer than 2^32 operations and labels placed after their uses, which the generator is proved to deliver; the source panics otherwise.
- Codegen.CompileExpr: says nothing about the builder after an error, since the generator then drops it; the same holds of the other emitting methods that can fail.
- Irep.IrBuilder.NewLabel: label numbers are unbounded, the source counts in 32 bits.
- Vm.Run: offsets and the program counter are unbounded, as on a 64-bit machine; the checked additions of the source then never fail.
- `Ctx` holds the builder by reference as the source does; that nothing else holds it is not modelled.
