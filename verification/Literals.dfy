/** The literals of the filter language: port numbers, IPv4 networks, hardware addresses, ethertypes. */
module Literals {
  import opened Words
  import opened Errors
  import opened Ast

  /** How the standard library reads and writes IPv6 addresses. */
  datatype Ipv6Notation = Ipv6Notation(read: string -> Option<u128>, write: u128 -> string)

  // ----- numbers -----

  function DigitOf(c: char): Option<nat> {
    if '0' <= c <= '9' then Some(c as nat - '0' as nat)
    else if 'a' <= c <= 'f' then Some(c as nat - 'a' as nat + 10)
    else if 'A' <= c <= 'F' then Some(c as nat - 'A' as nat + 10)
    else None
  }

  predicate IsDigit(c: char, radix: nat) {
    DigitOf(c).Some? && DigitOf(c).value < radix
  }

  predicate AllDigits(text: string, radix: nat) {
    forall i :: 0 <= i < |text| ==> IsDigit(text[i], radix)
  }

  function ValueOf(text: string, radix: nat): nat
    requires AllDigits(text, radix)
  {
    if text == "" then 0
    else ValueOf(text[..|text| - 1], radix) * radix + DigitOf(text[|text| - 1]).value
  }

  /** An unsigned number as the standard library reads it: an optional plus sign, then one or more
      digits, the value at most `max`. */
  function ParseNumber(text: string, radix: nat, max: nat): (r: Option<nat>)
    ensures r.Some? ==> r.value <= max
  {
    var digits := if text != "" && text[0] == '+' then text[1..] else text;
    if digits != "" && AllDigits(digits, radix) && ValueOf(digits, radix) <= max then Some(ValueOf(digits, radix))
    else None
  }

  // ----- splitting -----

  function Split(text: string, sep: char): (r: seq<string>)
    ensures r != []
  {
    if text == "" then [""]
    else
      var rest := Split(text[1..], sep);
      if text[0] == sep then [""] + rest else [[text[0]] + rest[0]] + rest[1..]
  }

  /** The text before the first `sep` and, if there is one, the text after it. */
  function SplitOnce(text: string, sep: char): (string, Option<string>) {
    if text == "" then ("", None)
    else if text[0] == sep then ("", Some(text[1..]))
    else
      var (a, b) := SplitOnce(text[1..], sep);
      ([text[0]] + a, b)
  }

  // ----- addresses -----

  function Octet(part: string): (r: Option<nat>)
    ensures r.Some? ==> r.value < 0x100
  {
    match ParseNumber(part, 10, 0xffff)
    case Some(v) => if v > 255 then None else Some(v)
    case None => None
  }

  function HexOctet(part: string): (r: Option<nat>)
    ensures r.Some? ==> r.value < 0x100
  {
    if |part| != 2 then None else ParseNumber(part, 16, 0xff)
  }

  function Octets(parts: seq<string>): (r: Option<seq<u8>>)
    ensures r.Some? ==> |r.value| == |parts|
  {
    if parts == [] then Some([])
    else
      match (Octets(parts[..|parts| - 1]), Octet(parts[|parts| - 1]))
      case (Some(before), Some(v)) => Some(before + [v])
      case _ => None
  }

  function HexOctets(parts: seq<string>): (r: Option<seq<u8>>)
    ensures r.Some? ==> |r.value| == |parts|
  {
    if parts == [] then Some([])
    else
      match (HexOctets(parts[..|parts| - 1]), HexOctet(parts[|parts| - 1]))
      case (Some(before), Some(v)) => Some(before + [v])
      case _ => None
  }

  /** Four octets as one big-endian word. */
  function Word32(o: seq<u8>): u32
    requires |o| == 4
  {
    ((o[0] as int * 0x100 + o[1] as int) * 0x100 + o[2] as int) * 0x100 + o[3] as int
  }

  /** Exactly four dotted decimal octets. */
  function Ipv4Of(text: string): Option<u32> {
    var parts := Split(text, '.');
    if |parts| != 4 then None
    else
      match Octets(parts)
      case Some(o) => Some(Word32(o))
      case None => None
  }

  /** Exactly six octets of two hexadecimal digits, separated by colons. */
  function MacOf(text: string): Option<MacAddr> {
    var parts := Split(text, ':');
    if |parts| != 6 then None
    else
      match HexOctets(parts)
      case Some(o) => Some(o)
      case None => None
  }

  lemma {:induction false} OctetsFail(parts: seq<string>, k: nat)
    requires k < |parts| && Octet(parts[k]).None?
    ensures Octets(parts).None?
  {
    if k < |parts| - 1 {
      OctetsFail(parts[..|parts| - 1], k);
    }
  }

  lemma {:induction false} HexOctetsFail(parts: seq<string>, k: nat)
    requires k < |parts| && HexOctet(parts[k]).None?
    ensures HexOctets(parts).None?
  {
    if k < |parts| - 1 {
      HexOctetsFail(parts[..|parts| - 1], k);
    }
  }

  lemma OneMoreOctet(parts: seq<string>, i: nat, before: seq<u8>, v: u8)
    requires i < |parts| && Octets(parts[..i]) == Some(before) && Octet(parts[i]) == Some(v as nat)
    ensures Octets(parts[..i + 1]) == Some(before + [v])
  {
    assert parts[..i + 1][..i] == parts[..i];
  }

  lemma OneMoreHexOctet(parts: seq<string>, i: nat, before: seq<u8>, v: u8)
    requires i < |parts| && HexOctets(parts[..i]) == Some(before) && HexOctet(parts[i]) == Some(v as nat)
    ensures HexOctets(parts[..i + 1]) == Some(before + [v])
  {
    assert parts[..i + 1][..i] == parts[..i];
  }

  method ParseIpv4Octets(text: string) returns (r: Option<u32>)
    ensures r == Ipv4Of(text)
  {
    var parts := Split(text, '.');
    var octets := new u8[4](_ => 0);
    var count := 0;
    for i := 0 to |parts|
      invariant count == i <= 4
      invariant Octets(parts[..i]) == Some(octets[..i])
    {
      if count >= 4 {
        return None;
      }
      var v := ParseNumber(parts[i], 10, 0xffff);
      if v.None? || v.value > 255 {
        OctetsFail(parts, i);
        return None;
      }
      ghost var before := octets[..i];
      OneMoreOctet(parts, i, before, v.value);
      octets[count] := v.value;
      count := count + 1;
      assert octets[..i + 1] == before + [v.value];
    }
    if count != 4 {
      return None;
    }
    assert parts[..|parts|] == parts && octets[..4] == octets[..];
    return Some(Word32(octets[..]));
  }

  method ParseMacLiteral(text: string, at: Span) returns (r: Result<MacAddr, CompileError>)
    ensures r == MacLiteral(text, at)
  {
    var parts := Split(text, ':');
    var octets := new u8[6](_ => 0);
    var count := 0;
    for i := 0 to |parts|
      invariant count == i <= 6
      invariant HexOctets(parts[..i]) == Some(octets[..i])
    {
      if count >= 6 {
        return Err(CompileError(at, InvalidMacLiteral(text)));
      }
      if |parts[i]| != 2 {
        HexOctetsFail(parts, i);
        return Err(CompileError(at, InvalidMacLiteral(text)));
      }
      var v := ParseNumber(parts[i], 16, 0xff);
      if v.None? {
        HexOctetsFail(parts, i);
        return Err(CompileError(at, InvalidMacLiteral(text)));
      }
      ghost var before := octets[..i];
      OneMoreHexOctet(parts, i, before, v.value);
      octets[count] := v.value;
      count := count + 1;
      assert octets[..i + 1] == before + [v.value];
    }
    if count != 6 {
      return Err(CompileError(at, InvalidMacLiteral(text)));
    }
    assert parts[..|parts|] == parts && octets[..6] == octets[..];
    return Ok(octets[..]);
  }

  function MacLiteral(text: string, at: Span): Result<MacAddr, CompileError> {
    match MacOf(text)
    case Some(mac) => Ok(mac)
    case None => Err(CompileError(at, InvalidMacLiteral(text)))
  }

  // ----- the literal parsers -----

  function ParsePort(text: string, at: Span): Result<u16, CompileError> {
    match ParseNumber(text, 10, 0xffff)
    case Some(v) => Ok(v)
    case None => Err(CompileError(at, InvalidPortNumber(text)))
  }

  /** A prefix length of at most `width`, where one may stand. */
  function ParsePrefix(part: Option<string>, allowPrefix: bool, width: u8,
        invalid: CompileError): Result<Option<u8>, CompileError> {
    match part
    case Some(p) =>
      if !allowPrefix then Err(invalid)
      else
        (match ParseNumber(p, 10, 0xff)
         case Some(n) => if n > width then Err(invalid) else Ok(Some(n))
         case None => Err(invalid))
    case None => Ok(None)
  }

  function ParseIpv6Literal(text: string, at: Span, allowPrefix: bool, ip6: Ipv6Notation)
    : Result<(AddrLit, Option<u8>), CompileError>
  {
    var (addrPart, prefixPart) := SplitOnce(text, '/');
    var invalid := CompileError(at, InvalidIPv6Literal(text));
    match ip6.read(addrPart)
    case None => Err(invalid)
    case Some(addr) =>
      var prefix :- ParsePrefix(prefixPart, allowPrefix, 128, invalid);
      Ok((V6(addr), prefix))
  }

  function AddrLiteral(text: string, at: Span, allowPrefix: bool, ip6: Ipv6Notation)
    : Result<(AddrLit, Option<u8>), CompileError>
  {
    if ':' in text then ParseIpv6Literal(text, at, allowPrefix, ip6)
    else
      var (addrPart, prefixPart) := SplitOnce(text, '/');
      var invalid := CompileError(at, InvalidIPv4Literal(text));
      match Ipv4Of(addrPart)
      case None => Err(invalid)
      case Some(addr) =>
        var prefix :- ParsePrefix(prefixPart, allowPrefix, 32, invalid);
        Ok((V4(addr), prefix))
  }

  method ParseAddrLiteral(text: string, at: Span, allowPrefix: bool, ip6: Ipv6Notation)
    returns (r: Result<(AddrLit, Option<u8>), CompileError>)
    ensures r == AddrLiteral(text, at, allowPrefix, ip6)
  {
    if ':' in text {
      return ParseIpv6Literal(text, at, allowPrefix, ip6);
    }
    var (addrPart, prefixPart) := SplitOnce(text, '/');
    var invalid := CompileError(at, InvalidIPv4Literal(text));
    var addr := ParseIpv4Octets(addrPart);
    if addr.None? {
      return Err(invalid);
    }
    var prefix :- ParsePrefix(prefixPart, allowPrefix, 32, invalid);
    return Ok((V4(addr.value), prefix));
  }

  function ToLower(text: string): string {
    seq(|text|, i requires 0 <= i < |text| =>
      if 'A' <= text[i] <= 'Z' then (text[i] as nat - 'A' as nat + 'a' as nat) as char else text[i])
  }

  function ParseEthertype(text: string, at: Span): Result<u16, CompileError> {
    var lower := ToLower(text);
    if lower == "ip" then Ok(0x0800)
    else if lower == "ip6" || lower == "ipv6" then Ok(0x86dd)
    else if lower == "arp" then Ok(0x0806)
    else if lower == "rarp" then Ok(0x8035)
    else
      var parsed :=
        if |text| >= 2 && text[0] == '0' && (text[1] == 'x' || text[1] == 'X') then ParseNumber(text[2..], 16, 0xffff)
        else ParseNumber(text, 10, 0xffff);
      match parsed
      case Some(v) => Ok(v)
      case None => Err(CompileError(at, InvalidEtherType(text)))
  }
}
