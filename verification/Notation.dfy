/** How numbers, addresses and ethertypes are written, said of their characters, and that the literal parsers accept
    exactly what is written so. */
module Notation {
  import opened Words
  import opened Errors
  import opened Ast
  import opened Literals
  import opened Printer
  import opened LiteralProofs

  // ----- numbers -----

  /** The value of an ASCII digit, of a hexadecimal one in either case. */
  function DigitValue(c: char): Option<nat> {
    var n := c as nat;
    if 0x30 <= n <= 0x39 then Some(n - 0x30)
    else if 0x41 <= n <= 0x46 then Some(n - 0x41 + 10)
    else if 0x61 <= n <= 0x66 then Some(n - 0x61 + 10)
    else None
  }

  predicate AreDigits(text: string, radix: nat) {
    forall i :: 0 <= i < |text| ==> DigitValue(text[i]).Some? && DigitValue(text[i]).value < radix
  }

  function Power(base: nat, n: nat): nat {
    if n == 0 then 1 else Power(base, n - 1) * base
  }

  /** The number the digits stand for, each by its place. */
  function Positional(text: string, radix: nat): nat
    requires AreDigits(text, radix)
  {
    if text == "" then 0
    else DigitValue(text[0]).value * Power(radix, |text| - 1) + Positional(text[1..], radix)
  }

  predicate IsNumber(digits: string, radix: nat, v: nat) {
    digits != "" && AreDigits(digits, radix) && Positional(digits, radix) == v
  }

  /** One or more digits, a plus sign before them or not. */
  predicate Numeral(text: string, radix: nat, v: nat) {
    IsNumber(text, radix, v) || (text != "" && text[0] == '+' && IsNumber(text[1..], radix, v))
  }

  lemma SameDigits(text: string, radix: nat)
    requires radix <= 16
    ensures AreDigits(text, radix) <==> AllDigits(text, radix)
  {
    forall i | 0 <= i < |text| ensures DigitValue(text[i]) == DigitOf(text[i]) {
    }
  }

  lemma {:induction false} LastPlace(text: string, radix: nat)
    requires text != "" && AreDigits(text, radix)
    ensures Positional(text, radix) ==
            Positional(text[..|text| - 1], radix) * radix + DigitValue(text[|text| - 1]).value
  {
    var n := |text|;
    if n == 1 {
      assert text[..0] == "" && text[1..] == "";
      assert Power(radix, 0) == 1;
    } else {
      var d, init, tail := DigitValue(text[0]).value, text[..n - 1], text[1..];
      LastPlace(tail, radix);
      assert tail[..n - 2] == init[1..] && init[0] == text[0] && tail[n - 2] == text[n - 1];
      var p, q := Power(radix, n - 2), Positional(init[1..], radix);
      assert Power(radix, n - 1) == p * radix;
      assert Positional(init, radix) == d * p + q;
      Places(d, p, q, radix);
    }
  }

  lemma Places(d: nat, p: nat, q: nat, radix: nat)
    ensures d * (p * radix) + q * radix == (d * p + q) * radix
  {
    assert d * (p * radix) == (d * p) * radix;
  }

  lemma {:induction false} ValueIsPositional(text: string, radix: nat)
    requires radix <= 16 && AreDigits(text, radix)
    ensures AllDigits(text, radix) && ValueOf(text, radix) == Positional(text, radix)
  {
    SameDigits(text, radix);
    if text != "" {
      ValueIsPositional(text[..|text| - 1], radix);
      LastPlace(text, radix);
      var c := text[|text| - 1];
      assert DigitOf(c) == DigitValue(c);
    }
  }

  /** A number is read exactly from its numerals, up to the greatest that is asked for. */
  lemma ReadsNumber(text: string, radix: nat, max: nat, v: nat)
    requires radix <= 16
    ensures ParseNumber(text, radix, max) == Some(v) <==> Numeral(text, radix, v) && v <= max
  {
    SameDigits(text, radix);
    if AreDigits(text, radix) {
      ValueIsPositional(text, radix);
    }
    if text != "" && text[0] == '+' {
      assert DigitValue(text[0]).None?;
      SameDigits(text[1..], radix);
      if AreDigits(text[1..], radix) {
        ValueIsPositional(text[1..], radix);
      }
    }
  }

  /** Digits and the plus sign are none of the signs that separate parts. */
  lemma NumeralIsOnePart(text: string, radix: nat, v: nat)
    requires Numeral(text, radix, v)
    ensures '.' !in text && ':' !in text && '/' !in text
  {
    forall c | c in text ensures c != '.' && c != ':' && c != '/' {
      var i :| 0 <= i < |text| && text[i] == c;
      if !IsNumber(text, radix, v) && i > 0 {
        assert text[1..][i - 1] == c;
      }
    }
  }

  // ----- parts and separators -----

  lemma {:induction false} SplitApart(text: string, sep: char)
    ensures Join(Split(text, sep), sep) == text
    ensures forall i :: 0 <= i < |Split(text, sep)| ==> sep !in Split(text, sep)[i]
  {
    if text != "" {
      var rest := Split(text[1..], sep);
      SplitApart(text[1..], sep);
      assert text == [text[0]] + text[1..];
      if text[0] == sep {
        SeparatorBefore(rest, sep);
      } else {
        CharacterBefore(text[0], rest, sep);
      }
    }
  }

  lemma SeparatorBefore(rest: seq<string>, sep: char)
    requires rest != []
    ensures Join([""] + rest, sep) == [sep] + Join(rest, sep)
  {
    assert ([""] + rest)[1..] == rest;
    assert Join([""] + rest, sep) == "" + [sep] + Join(rest, sep);
  }

  lemma CharacterBefore(c: char, rest: seq<string>, sep: char)
    requires rest != []
    ensures Join([[c] + rest[0]] + rest[1..], sep) == [c] + Join(rest, sep)
  {
    var first := [c] + rest[0];
    if |rest| > 1 {
      assert ([first] + rest[1..])[1..] == rest[1..];
      assert Join(rest, sep) == rest[0] + [sep] + Join(rest[1..], sep);
    }
  }

  /** This text is these parts with separators between them, and the parts have none. */
  predicate Parts(text: string, sep: char, parts: seq<string>) {
    && parts != []
    && text == Join(parts, sep)
    && forall i :: 0 <= i < |parts| ==> sep !in parts[i]
  }

  lemma SplitsExactly(text: string, sep: char, parts: seq<string>)
    ensures Split(text, sep) == parts <==> Parts(text, sep, parts)
  {
    SplitApart(text, sep);
    if Parts(text, sep, parts) {
      SplitJoin(parts, sep);
    }
  }

  // ----- IPv4 addresses -----

  /** Four decimal numbers with points between them, an octet of the address each. */
  ghost predicate DottedQuad(text: string, addr: u32) {
    exists parts :: |parts| == 4 && Parts(text, '.', parts) && AreOctets(parts, addr)
  }

  predicate AreOctets(parts: seq<string>, addr: u32)
    requires |parts| == 4
  {
    forall i :: 0 <= i < 4 ==> Numeral(parts[i], 10, OctetOf(addr, i) as nat)
  }

  lemma OctetReads(part: string, v: u8)
    ensures Octet(part) == Some(v as nat) <==> Numeral(part, 10, v as nat)
  {
    ReadsNumber(part, 10, 0xffff, v as nat);
  }

  lemma {:induction false} EveryOctet(parts: seq<string>, i: nat)
    requires Octets(parts).Some? && i < |parts|
    ensures Octet(parts[i]) == Some(Octets(parts).value[i] as nat)
    decreases |parts|
  {
    if i < |parts| - 1 {
      EveryOctet(parts[..|parts| - 1], i);
    }
  }

  lemma WordOctets(o: seq<u8>)
    requires |o| == 4
    ensures forall i :: 0 <= i < 4 ==> OctetOf(Word32(o), i) == o[i]
  {
    var high := o[0] as int * 0x100 + o[1] as int;
    var most := high * 0x100 + o[2] as int;
    var w := Word32(o) as int;
    assert w == most * 0x100 + o[3] as int;
    assert w / 0x100 == most && w % 0x100 == o[3] as int;
    assert most / 0x100 == high && most % 0x100 == o[2] as int;
    assert high / 0x100 == o[0] as int && high % 0x100 == o[1] as int;
    assert w / 0x1_0000 == high && w / 0x100_0000 == o[0] as int;
  }

  /** Exactly the dotted quads are IPv4 addresses. */
  lemma ReadsQuad(text: string, addr: u32)
    ensures Ipv4Of(text) == Some(addr) <==> DottedQuad(text, addr)
  {
    if Ipv4Of(text) == Some(addr) {
      var parts := Split(text, '.');
      var o := Octets(parts).value;
      SplitsExactly(text, '.', parts);
      WordOctets(o);
      forall i | 0 <= i < 4 ensures Numeral(parts[i], 10, OctetOf(addr, i) as nat) {
        EveryOctet(parts, i);
        OctetReads(parts[i], o[i]);
      }
      assert |parts| == 4 && Parts(text, '.', parts) && AreOctets(parts, addr);
    }
    if DottedQuad(text, addr) {
      var parts :| |parts| == 4 && Parts(text, '.', parts) && AreOctets(parts, addr);
      SplitsExactly(text, '.', parts);
      var o := OctetsOf(addr);
      forall i | 0 <= i < 4 ensures Octet(parts[i]) == Some(o[i]) {
        OctetReads(parts[i], o[i]);
      }
      ReadsOctets(parts, o);
      OctetsAreWord(addr);
    }
  }

  // ----- hardware addresses -----

  /** Six numbers of two hexadecimal characters with colons between them. */
  ghost predicate ColonHex(text: string, mac: MacAddr) {
    exists parts :: |parts| == 6 && Parts(text, ':', parts) && AreMacOctets(parts, mac)
  }

  predicate AreMacOctets(parts: seq<string>, mac: MacAddr)
    requires |parts| == 6
  {
    forall i :: 0 <= i < 6 ==> |parts[i]| == 2 && Numeral(parts[i], 16, mac[i] as nat)
  }

  lemma HexOctetReads(part: string, v: u8)
    ensures HexOctet(part) == Some(v as nat) <==> |part| == 2 && Numeral(part, 16, v as nat)
  {
    ReadsNumber(part, 16, 0xff, v as nat);
  }

  lemma {:induction false} EveryHexOctet(parts: seq<string>, i: nat)
    requires HexOctets(parts).Some? && i < |parts|
    ensures HexOctet(parts[i]) == Some(HexOctets(parts).value[i] as nat)
    decreases |parts|
  {
    if i < |parts| - 1 {
      EveryHexOctet(parts[..|parts| - 1], i);
    }
  }

  /** Exactly these are hardware addresses; anything else is reported as it stands. */
  lemma ReadsColonHex(text: string, at: Span, mac: MacAddr)
    ensures MacLiteral(text, at) == Ok(mac) <==> ColonHex(text, mac)
    ensures MacLiteral(text, at).Err? ==> MacLiteral(text, at).error == CompileError(at, InvalidMacLiteral(text))
  {
    if MacLiteral(text, at) == Ok(mac) {
      var parts := Split(text, ':');
      SplitsExactly(text, ':', parts);
      forall i | 0 <= i < 6 ensures |parts[i]| == 2 && Numeral(parts[i], 16, mac[i] as nat) {
        EveryHexOctet(parts, i);
        HexOctetReads(parts[i], mac[i]);
      }
      assert |parts| == 6 && Parts(text, ':', parts) && AreMacOctets(parts, mac);
    }
    if ColonHex(text, mac) {
      var parts :| |parts| == 6 && Parts(text, ':', parts) && AreMacOctets(parts, mac);
      SplitsExactly(text, ':', parts);
      forall i | 0 <= i < 6 ensures HexOctet(parts[i]) == Some(mac[i]) {
        HexOctetReads(parts[i], mac[i]);
      }
      ReadsHexOctets(parts, mac);
    }
  }

  // ----- ports -----

  lemma ReadsPort(text: string, at: Span, port: u16)
    ensures ParsePort(text, at) == Ok(port) <==> Numeral(text, 10, port as nat)
    ensures ParsePort(text, at).Err? ==> ParsePort(text, at).error == CompileError(at, InvalidPortNumber(text))
  {
    ReadsNumber(text, 10, 0xffff, port as nat);
  }

  // ----- networks -----

  /** An IPv4 address as a dotted quad, or an IPv6 address, which has a colon and no slash, as the standard library
      writes it. */
  ghost predicate AddressText(text: string, addr: AddrLit, ip6: Ipv6Notation) {
    match addr
    case V4(a) => DottedQuad(text, a)
    case V6(a) => ':' in text && '/' !in text && ip6.read(text) == Some(a)
  }

  /** An address and, if there is a prefix length, a slash and the number, no more than the address has bits. */
  ghost predicate NetworkText(text: string, addr: AddrLit, prefix: Option<u8>, ip6: Ipv6Notation) {
    match prefix
    case None => AddressText(text, addr, ip6)
    case Some(n) =>
      exists a, b :: text == a + "/" + b && AddressText(a, addr, ip6) && Numeral(b, 10, n as nat) &&
                     n as int <= if addr.V4? then 32 else 128
  }

  lemma {:induction false} JoinKeepsOut(parts: seq<string>, sep: char, c: char)
    requires parts != [] && c != sep && forall i :: 0 <= i < |parts| ==> c !in parts[i]
    ensures c !in Join(parts, sep)
  {
    if |parts| > 1 {
      JoinKeepsOut(parts[1..], sep, c);
    }
  }

  lemma QuadIsPlain(text: string, addr: u32)
    requires DottedQuad(text, addr)
    ensures '/' !in text && ':' !in text
  {
    var parts :| |parts| == 4 && Parts(text, '.', parts) && AreOctets(parts, addr);
    forall i | 0 <= i < 4 ensures '/' !in parts[i] && ':' !in parts[i] {
      NumeralIsOnePart(parts[i], 10, OctetOf(addr, i) as nat);
    }
    JoinKeepsOut(parts, '.', '/');
    JoinKeepsOut(parts, '.', ':');
  }

  lemma AddressIsPlain(text: string, addr: AddrLit, ip6: Ipv6Notation)
    requires AddressText(text, addr, ip6)
    ensures '/' !in text && (':' in text <==> addr.V6?)
  {
    if addr.V4? {
      QuadIsPlain(text, addr.v4);
    }
  }

  lemma {:induction false} SplitOnceApart(text: string, sep: char)
    ensures var (a, b) := SplitOnce(text, sep);
            sep !in a && text == if b.Some? then a + [sep] + b.value else a
  {
    if text != "" && text[0] != sep {
      SplitOnceApart(text[1..], sep);
      var (a, b) := SplitOnce(text[1..], sep);
      assert text == [text[0]] + text[1..];
      if b.Some? {
        assert [text[0]] + (a + [sep] + b.value) == [text[0]] + a + [sep] + b.value;
      }
    } else if text != "" {
      assert text == "" + [sep] + text[1..];
    }
  }

  lemma PrefixReads(part: string, width: u8, invalid: CompileError, n: u8)
    ensures ParsePrefix(Some(part), true, width, invalid) == Ok(Some(n)) <==> Numeral(part, 10, n as nat) && n <= width
    ensures ParsePrefix(Some(part), true, width, invalid).Err? ==>
              ParsePrefix(Some(part), true, width, invalid).error == invalid
  {
    ReadsNumber(part, 10, 0xff, n as nat);
  }

  /** What an address of this family is read from, on its own. */
  function ReadAddress(text: string, six: bool, ip6: Ipv6Notation): Option<AddrLit> {
    if six then (match ip6.read(text) case Some(a) => Some(V6(a)) case None => None)
    else (match Ipv4Of(text) case Some(a) => Some(V4(a)) case None => None)
  }

  lemma ReadsAddress(text: string, six: bool, ip6: Ipv6Notation, addr: AddrLit)
    requires '/' !in text && (six <==> ':' in text)
    ensures ReadAddress(text, six, ip6) == Some(addr) <==> AddressText(text, addr, ip6)
  {
    if addr.V4? {
      ReadsQuad(text, addr.v4);
      if DottedQuad(text, addr.v4) {
        QuadIsPlain(text, addr.v4);
      }
    }
  }

  function InvalidAddress(text: string, at: Span): CompileError {
    CompileError(at, if ':' in text then InvalidIPv6Literal(text) else InvalidIPv4Literal(text))
  }

  /** The literal parser in terms of what stands before and behind the slash. */
  lemma LiteralParts(text: string, at: Span, allowPrefix: bool, ip6: Ipv6Notation)
    ensures var six, (a, b) := ':' in text, SplitOnce(text, '/');
            var addr := ReadAddress(a, six, ip6);
            var prefix := ParsePrefix(b, allowPrefix, if six then 128 else 32, InvalidAddress(text, at));
            AddrLiteral(text, at, allowPrefix, ip6) ==
            if addr.None? then Err(InvalidAddress(text, at))
            else if prefix.Err? then Err(prefix.error)
            else Ok((addr.value, prefix.value))
  {
  }

  lemma ReadsBareAddress(text: string, at: Span, allowPrefix: bool, ip6: Ipv6Notation, addr: AddrLit)
    ensures AddrLiteral(text, at, allowPrefix, ip6) == Ok((addr, None)) <==> AddressText(text, addr, ip6)
  {
    LiteralParts(text, at, allowPrefix, ip6);
    SplitOnceApart(text, '/');
    if '/' !in text {
      SplitOnceWhole(text, '/');
      ReadsAddress(text, ':' in text, ip6, addr);
    } else {
      var (a, b) := SplitOnce(text, '/');
      assert b.Some?;
      if AddressText(text, addr, ip6) {
        AddressIsPlain(text, addr, ip6);
      }
    }
  }

  lemma ReadsPrefixed(a: string, b: string, at: Span, allowPrefix: bool, ip6: Ipv6Notation, addr: AddrLit, n: u8)
    requires '/' !in a
    ensures AddrLiteral(a + "/" + b, at, allowPrefix, ip6) == Ok((addr, Some(n))) <==>
            AddressText(a, addr, ip6) && Numeral(b, 10, n as nat) && n as int <= (if addr.V4? then 32 else 128) &&
            allowPrefix
  {
    var text := a + "/" + b;
    SplitOnceFirst(a, '/', b);
    LiteralParts(text, at, allowPrefix, ip6);
    PrefixReads(b, if ':' in text then 128 else 32, InvalidAddress(text, at), n);
    if Numeral(b, 10, n as nat) {
      NumeralIsOnePart(b, 10, n as nat);
      assert ':' in text <==> ':' in a;
      ReadsAddress(a, ':' in a, ip6, addr);
      if AddressText(a, addr, ip6) {
        AddressIsPlain(a, addr, ip6);
      }
    }
  }

  /** Exactly these texts are addresses, and where a prefix is allowed networks. */
  lemma ReadsNetwork(text: string, at: Span, allowPrefix: bool, ip6: Ipv6Notation, addr: AddrLit, prefix: Option<u8>)
    ensures AddrLiteral(text, at, allowPrefix, ip6) == Ok((addr, prefix)) <==>
            NetworkText(text, addr, prefix, ip6) && (prefix.Some? ==> allowPrefix)
  {
    if prefix.None? {
      ReadsBareAddress(text, at, allowPrefix, ip6, addr);
    } else {
      var n := prefix.value;
      if AddrLiteral(text, at, allowPrefix, ip6) == Ok((addr, prefix)) {
        var (a, b) := SplitOnce(text, '/');
        SplitOnceApart(text, '/');
        LiteralParts(text, at, allowPrefix, ip6);
        assert b.Some?;
        assert text == a + "/" + b.value;
        ReadsPrefixed(a, b.value, at, allowPrefix, ip6, addr, n);
      }
      if NetworkText(text, addr, prefix, ip6) {
        var a, b :| text == a + "/" + b && AddressText(a, addr, ip6) && Numeral(b, 10, n as nat) &&
                    n as int <= if addr.V4? then 32 else 128;
        AddressIsPlain(a, addr, ip6);
        ReadsPrefixed(a, b, at, allowPrefix, ip6, addr, n);
      }
    }
  }

  /** Anything else is reported as it stands, in the family that a colon decides. */
  lemma InvalidNetwork(text: string, at: Span, allowPrefix: bool, ip6: Ipv6Notation)
    requires AddrLiteral(text, at, allowPrefix, ip6).Err?
    ensures AddrLiteral(text, at, allowPrefix, ip6).error == InvalidAddress(text, at)
  {
    LiteralParts(text, at, allowPrefix, ip6);
  }

  // ----- ethertypes -----

  /** The same letters, in either case. */
  predicate SameLetters(text: string, name: string) {
    |text| == |name| &&
    forall i :: 0 <= i < |text| ==>
      text[i] == name[i] || (0x41 <= text[i] as nat <= 0x5a && text[i] as nat + 0x20 == name[i] as nat)
  }

  /** One of the five names, in upper or lower case, or a number, hexadecimal behind `0x` or `0X`. */
  predicate EthertypeText(text: string, v: u16) {
    || (SameLetters(text, "ip") && v == 0x0800)
    || (SameLetters(text, "ip6") && v == 0x86dd)
    || (SameLetters(text, "ipv6") && v == 0x86dd)
    || (SameLetters(text, "arp") && v == 0x0806)
    || (SameLetters(text, "rarp") && v == 0x8035)
    || EthertypeNumber(text, v)
  }

  predicate EthertypeNumber(text: string, v: u16) {
    || (|text| > 2 && (text[..2] == "0x" || text[..2] == "0X") && Numeral(text[2..], 16, v as nat))
    || Numeral(text, 10, v as nat)
  }

  lemma LowerIsSame(text: string, name: string)
    requires forall i :: 0 <= i < |name| ==> !(0x41 <= name[i] as nat <= 0x5a)
    ensures SameLetters(text, name) <==> ToLower(text) == name
  {
    if ToLower(text) == name {
      forall i | 0 <= i < |text|
        ensures text[i] == name[i] || (0x41 <= text[i] as nat <= 0x5a && text[i] as nat + 0x20 == name[i] as nat)
      {
        assert ToLower(text)[i] == name[i];
      }
    }
    if SameLetters(text, name) {
      forall i | 0 <= i < |text| ensures ToLower(text)[i] == name[i] {
      }
      assert ToLower(text) == name;
    }
  }

  /** A numeral starts with a digit or a plus sign, a name with a letter. */
  lemma NumeralIsNoName(text: string, v: nat)
    requires Numeral(text, 10, v)
    ensures 0x2b <= text[0] as nat <= 0x39
    ensures |text| >= 2 ==> text[1] != 'x' && text[1] != 'X'
  {
    if IsNumber(text, 10, v) {
      assert DigitValue(text[0]).Some?;
      if |text| >= 2 {
        assert DigitValue(text[1]).Some?;
      }
    } else {
      assert DigitValue(text[1..][0]).Some?;
    }
  }

  /** Exactly these texts are ethertypes; anything else is reported as it stands. */
  lemma ReadsEthertypeText(text: string, at: Span, v: u16)
    ensures ParseEthertype(text, at) == Ok(v) <==> EthertypeText(text, v)
    ensures ParseEthertype(text, at).Err? ==>
              ParseEthertype(text, at).error == CompileError(at, InvalidEtherType(text))
  {
    NamesRead(text);
    NumberRead(text, v);
    if EthertypeNumber(text, v) {
      NumberIsNoName(text, v);
    }
  }

  predicate IsName(text: string) {
    || SameLetters(text, "ip") || SameLetters(text, "ip6") || SameLetters(text, "ipv6")
    || SameLetters(text, "arp") || SameLetters(text, "rarp")
  }

  lemma NamesRead(text: string)
    ensures SameLetters(text, "ip") <==> ToLower(text) == "ip"
    ensures SameLetters(text, "ip6") <==> ToLower(text) == "ip6"
    ensures SameLetters(text, "ipv6") <==> ToLower(text) == "ipv6"
    ensures SameLetters(text, "arp") <==> ToLower(text) == "arp"
    ensures SameLetters(text, "rarp") <==> ToLower(text) == "rarp"
  {
    LowerIsSame(text, "ip");
    LowerIsSame(text, "ip6");
    LowerIsSame(text, "ipv6");
    LowerIsSame(text, "arp");
    LowerIsSame(text, "rarp");
  }

  /** What is read where there is no name. */
  function NumberOf(text: string): Option<nat> {
    if |text| >= 2 && text[0] == '0' && (text[1] == 'x' || text[1] == 'X') then ParseNumber(text[2..], 16, 0xffff)
    else ParseNumber(text, 10, 0xffff)
  }

  lemma NumberRead(text: string, v: u16)
    ensures NumberOf(text) == Some(v as nat) <==> EthertypeNumber(text, v)
  {
    ReadsNumber(text, 10, 0xffff, v as nat);
    if |text| >= 2 {
      ReadsNumber(text[2..], 16, 0xffff, v as nat);
      assert text[..2] == "0x" <==> text[0] == '0' && text[1] == 'x';
      assert text[..2] == "0X" <==> text[0] == '0' && text[1] == 'X';
    }
    if Numeral(text, 10, v as nat) {
      NumeralIsNoName(text, v as nat);
    }
  }

  lemma NumberIsNoName(text: string, v: u16)
    requires EthertypeNumber(text, v)
    ensures !IsName(text)
  {
    if Numeral(text, 10, v as nat) {
      NumeralIsNoName(text, v as nat);
    } else {
      assert text[..2][0] == text[0];
    }
  }
}
