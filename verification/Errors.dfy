/** Results, source spans and the errors a compilation can end in. */
module Errors {
  import opened Words

  datatype Option<+T> = None | Some(value: T)

  datatype Result<+T, +E> = Ok(value: T) | Err(error: E) {
    predicate IsFailure() {
      Err?
    }
    function PropagateFailure<U>(): Result<U, E>
      requires Err?
    {
      Err(error)
    }
    function Extract(): T
      requires Ok?
    {
      value
    }
  }

  /** A half-open range of offsets into the source text. */
  datatype Span = Span(start: nat, end: nat)

  /** Why a protocol, a primitive type and a link type do not combine. */
  datatype Mismatch =
    | Ip6NeedsIp6Address
    | SctpHasNoAddresses
    | Ip6AddressNeedsIp6
    | PortNeedsTransport
    | NoMacPair
    | NoEthertypeField

  datatype ErrorTag =
    | UnexpectedChar(c: char)
    | UnexpectedToken(expected: string, found: string)
    | UnexpectedEof(expected: string)
    | UnknownKeyword(word: string)
    | InvalidIPv4Literal(text: string)
    | InvalidIPv6Literal(text: string)
    | InvalidMacLiteral(text: string)
    | InvalidEtherType(text: string)
    | InvalidPortNumber(text: string)
    | InvalidPortRange(lo: nat, hi: nat)
    | UnbalancedParens
    | EmptyExpression
    | InvalidPrimitiveCombination(why: Mismatch)
    | JumpDisplacementOverflow(instIndex: nat, displacement: u32)

  datatype CompileError = CompileError(at: Span, tag: ErrorTag)
}
