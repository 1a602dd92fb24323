/** Reading back the literals that are written out. */
module LiteralProofs {
  import opened Words
  import opened Errors
  import opened Ast
  import opened Lexer
  import opened Literals
  import opened Printer

  // ----- numbers -----

  predicate Decimal(text: string) {
    text != "" && forall i :: 0 <= i < |text| ==> '0' <= text[i] <= '9'
  }

  lemma {:induction false} DecIsDecimal(n: nat)
    ensures Decimal(Dec(n))
  {
    if n >= 10 {
      DecIsDecimal(n / 10);
    }
  }

  lemma {:induction false} DecValue(n: nat)
    ensures Decimal(Dec(n)) && AllDigits(Dec(n), 10) && ValueOf(Dec(n), 10) == n
  {
    DecIsDecimal(n);
    if n < 10 {
      assert Dec(n)[..0] == "";
    } else {
      DecValue(n / 10);
      assert Dec(n)[..|Dec(n)| - 1] == Dec(n / 10);
    }
  }

  /** A number in range is read back from its decimal digits. */
  lemma ReadsDecimal(n: nat, max: nat)
    requires n <= max
    ensures ParseNumber(Dec(n), 10, max) == Some(n)
  {
    DecValue(n);
  }

  /** An octet is read back from its two hexadecimal digits. */
  lemma ReadsHexPair(b: u8)
    ensures HexOctet(HexPair(b)) == Some(b)
  {
    var text := HexPair(b);
    assert text[..1][..0] == "" && text[..1] == [text[0]];
    assert DigitOf(text[0]) == Some(b / 16) && DigitOf(text[1]) == Some(b % 16);
    assert AllDigits(text, 16);
    assert ValueOf(text[..1], 16) == b / 16;
    assert ValueOf(text, 16) == b;
  }

  // ----- splitting -----

  lemma {:induction false} SplitWhole(text: string, sep: char)
    requires sep !in text
    ensures Split(text, sep) == [text]
  {
    if text != "" {
      assert text == [text[0]] + text[1..];
      SplitWhole(text[1..], sep);
    }
  }

  lemma {:induction false} SplitFirst(a: string, sep: char, b: string)
    requires sep !in a
    ensures Split(a + [sep] + b, sep) == [a] + Split(b, sep)
  {
    var text := a + [sep] + b;
    if a == "" {
      assert text[1..] == b;
    } else {
      assert text[1..] == a[1..] + [sep] + b;
      assert forall c :: c in a[1..] ==> c in a;
      SplitFirst(a[1..], sep, b);
      var rest := Split(text[1..], sep);
      assert rest[0] == a[1..] && rest[1..] == Split(b, sep);
      assert [a[0]] + a[1..] == a;
    }
  }

  lemma {:induction false} SplitOnceWhole(text: string, sep: char)
    requires sep !in text
    ensures SplitOnce(text, sep) == (text, None)
  {
    if text != "" {
      assert text == [text[0]] + text[1..];
      SplitOnceWhole(text[1..], sep);
    }
  }

  lemma {:induction false} SplitOnceFirst(a: string, sep: char, b: string)
    requires sep !in a
    ensures SplitOnce(a + [sep] + b, sep) == (a, Some(b))
  {
    var text := a + [sep] + b;
    if a == "" {
      assert text[1..] == b;
    } else {
      assert text[1..] == a[1..] + [sep] + b;
      assert forall c :: c in a[1..] ==> c in a;
      SplitOnceFirst(a[1..], sep, b);
      assert [a[0]] + a[1..] == a;
    }
  }

  // ----- addresses -----

  lemma {:induction false} SplitJoin(parts: seq<string>, sep: char)
    requires parts != [] && forall i :: 0 <= i < |parts| ==> sep !in parts[i]
    ensures Split(Join(parts, sep), sep) == parts
  {
    if |parts| == 1 {
      SplitWhole(parts[0], sep);
    } else {
      SplitJoin(parts[1..], sep);
      SplitFirst(parts[0], sep, Join(parts[1..], sep));
    }
  }

  lemma {:induction false} JoinChars(parts: seq<string>, sep: char, allowed: set<char>)
    requires parts != [] && sep in allowed && forall i, c :: 0 <= i < |parts| && c in parts[i] ==> c in allowed
    ensures forall c :: c in Join(parts, sep) ==> c in allowed
  {
    if |parts| > 1 {
      JoinChars(parts[1..], sep, allowed);
    }
  }

  lemma OctetsAreWord(a: u32)
    ensures Word32(OctetsOf(a)) == a
  {
    OctetsMakeWord(a);
  }

  lemma OneMoreTaken(o: seq<u8>, i: nat)
    requires i < |o|
    ensures o[..i] + [o[i]] == o[..i + 1]
  {
  }

  lemma {:induction false} ReadsOctetsTo(parts: seq<string>, o: seq<u8>, n: nat)
    requires n <= |parts| == |o|
    requires forall i :: 0 <= i < |o| ==> Octet(parts[i]) == Some(o[i])
    ensures Octets(parts[..n]) == Some(o[..n])
  {
    if n > 0 {
      var i := n - 1;
      ReadsOctetsTo(parts, o, i);
      OneMoreOctet(parts, i, o[..i], o[i]);
      OneMoreTaken(o, i);
    }
  }

  lemma ReadsOctets(parts: seq<string>, o: seq<u8>)
    requires |parts| == |o|
    requires forall i :: 0 <= i < |o| ==> Octet(parts[i]) == Some(o[i])
    ensures Octets(parts) == Some(o)
  {
    ReadsOctetsTo(parts, o, |o|);
    assert parts[..|o|] == parts && o[..|o|] == o;
  }

  lemma OctetOfDec(v: u8)
    ensures Octet(Dec(v)) == Some(v)
  {
    ReadsDecimal(v, 0xffff);
  }

  /** An IPv4 address is read back from its dotted form. */
  lemma ReadsDotted(a: u32)
    ensures Ipv4Of(Dotted(a)) == Some(a)
  {
    var o := OctetsOf(a);
    var parts := DecAll(o);
    forall i | 0 <= i < 4 ensures '.' !in parts[i] {
      DecIsDecimal(o[i]);
    }
    SplitJoin(parts, '.');
    forall i | 0 <= i < 4 ensures Octet(parts[i]) == Some(o[i]) {
      OctetOfDec(o[i]);
    }
    ReadsOctets(parts, o);
    OctetsAreWord(a);
  }

  const PLAIN: set<char> := {'0', '1', '2', '3', '4', '5', '6', '7', '8', '9', '.'}

  lemma DottedIsPlain(a: u32)
    ensures Dotted(a) != "" && forall c :: c in Dotted(a) ==> c in PLAIN
  {
    var parts := DecAll(OctetsOf(a));
    forall i, c | 0 <= i < |parts| && c in parts[i] ensures c in PLAIN {
      DecIsDecimal(OctetsOf(a)[i]);
      DigitIsPlain(c);
    }
    JoinChars(parts, '.', PLAIN);
    DecIsDecimal(OctetOf(a, 0));
  }

  lemma DigitIsPlain(c: char)
    requires '0' <= c <= '9'
    ensures c in PLAIN
  {
  }

  lemma AddrTextShape(addr: AddrLit, ip6: Ipv6Notation)
    requires WritesIpv6(ip6)
    ensures '/' !in AddrText(addr, ip6) && (':' in AddrText(addr, ip6) <==> addr.V6?)
  {
    if addr.V4? {
      DottedIsPlain(addr.v4);
    } else {
      assert Ipv6Text(ip6.write(addr.v6));
    }
  }

  /** The text of a network splits into its address and its prefix. */
  lemma NetTextSplits(addr: AddrLit, prefix: Option<u8>, ip6: Ipv6Notation)
    requires WritesIpv6(ip6)
    ensures SplitOnce(NetText(addr, prefix, ip6), '/') ==
            (AddrText(addr, ip6), if prefix.Some? then Some(Dec(prefix.value)) else None)
    ensures ':' in NetText(addr, prefix, ip6) <==> addr.V6?
  {
    var text := AddrText(addr, ip6);
    AddrTextShape(addr, ip6);
    match prefix
    case Some(n) =>
      DecIsDecimal(n);
      SplitOnceFirst(text, '/', Dec(n));
      assert ':' !in Dec(n);
    case None =>
      SplitOnceWhole(text, '/');
  }

  lemma ReadsPrefix(prefix: Option<u8>, allowPrefix: bool, width: u8, invalid: CompileError)
    requires prefix.Some? ==> allowPrefix && prefix.value <= width
    ensures ParsePrefix(if prefix.Some? then Some(Dec(prefix.value)) else None, allowPrefix, width, invalid) ==
            Ok(prefix)
  {
    if prefix.Some? {
      ReadsDecimal(prefix.value, 0xff);
    }
  }

  /** An address literal, with or without a prefix, is read back from its text. */
  lemma ReadsNet(addr: AddrLit, prefix: Option<u8>, allowPrefix: bool, at: Span, ip6: Ipv6Notation)
    requires WritesIpv6(ip6)
    requires prefix.Some? ==> allowPrefix && prefix.value as int <= (if addr.V4? then 32 else 128)
    ensures AddrLiteral(NetText(addr, prefix, ip6), at, allowPrefix, ip6) == Ok((addr, prefix))
  {
    var text := NetText(addr, prefix, ip6);
    NetTextSplits(addr, prefix, ip6);
    match addr
    case V4(a) =>
      ReadsDotted(a);
      ReadsPrefix(prefix, allowPrefix, 32, CompileError(at, InvalidIPv4Literal(text)));
    case V6(a) =>
      assert ip6.read(ip6.write(a)) == Some(a);
      ReadsPrefix(prefix, allowPrefix, 128, CompileError(at, InvalidIPv6Literal(text)));
  }

  // ----- hardware addresses -----

  lemma HexPairPlain(b: u8)
    ensures ':' !in HexPair(b) && forall i :: 0 <= i < 2 ==> IsWordChar(HexPair(b)[i])
  {
  }

  lemma {:induction false} ReadsHexOctetsTo(parts: seq<string>, o: seq<u8>, n: nat)
    requires n <= |parts| == |o|
    requires forall i :: 0 <= i < |o| ==> HexOctet(parts[i]) == Some(o[i])
    ensures HexOctets(parts[..n]) == Some(o[..n])
  {
    if n > 0 {
      var i := n - 1;
      ReadsHexOctetsTo(parts, o, i);
      OneMoreHexOctet(parts, i, o[..i], o[i]);
      OneMoreTaken(o, i);
    }
  }

  lemma ReadsHexOctets(parts: seq<string>, o: seq<u8>)
    requires |parts| == |o|
    requires forall i :: 0 <= i < |o| ==> HexOctet(parts[i]) == Some(o[i])
    ensures HexOctets(parts) == Some(o)
  {
    ReadsHexOctetsTo(parts, o, |o|);
    assert parts[..|o|] == parts && o[..|o|] == o;
  }

  /** A hardware address is read back from its six pairs of digits. */
  lemma ReadsMac(mac: MacAddr, at: Span)
    ensures MacLiteral(MacText(mac), at) == Ok(mac)
  {
    var parts := HexAll(mac);
    forall i | 0 <= i < 6 ensures ':' !in parts[i] {
      HexPairPlain(mac[i]);
    }
    SplitJoin(parts, ':');
    forall i | 0 <= i < 6 ensures HexOctet(parts[i]) == Some(mac[i]) {
      ReadsHexPair(mac[i]);
    }
    ReadsHexOctets(parts, mac);
  }

  /** An ethertype is read back from its decimal digits, never mistaken for a name or for hexadecimal. */
  lemma ReadsEthertype(n: u16, at: Span)
    ensures ParseEthertype(Dec(n), at) == Ok(n)
  {
    DecIsDecimal(n);
    ReadsDecimal(n, 0xffff);
    DigitsAreNoName(Dec(n));
  }

  lemma DigitsAreNoName(text: string)
    requires Decimal(text)
    ensures ToLower(text) !in {"ip", "ip6", "ipv6", "arp", "rarp"}
    ensures |text| >= 2 ==> text[1] != 'x' && text[1] != 'X'
  {
    assert ToLower(text)[0] == text[0];
  }

  // ----- a notation that reads back what it writes -----

  const MAX_ADDRESS := 0xffff_ffff_ffff_ffff_ffff_ffff_ffff_ffff

  /** The address as one decimal number and a colon: no notation in use, but one as the printing results ask. */
  function PlainIpv6(): Ipv6Notation {
    Ipv6Notation((text: string) => if text == "" then None else ParseNumber(text[..|text| - 1], 10, MAX_ADDRESS),
                 (a: u128) => Dec(a) + ":")
  }

  /** What the printing results assume of the standard library can be had. */
  lemma SomeNotationReadsBack()
    ensures WritesIpv6(PlainIpv6())
  {
    forall a: u128 ensures Ipv6Text(PlainIpv6().write(a)) && PlainIpv6().read(PlainIpv6().write(a)) == Some(a) {
      DecIsDecimal(a);
      ReadsDecimal(a, MAX_ADDRESS);
      var text := Dec(a) + ":";
      assert text[..|text| - 1] == Dec(a) && text[|text| - 1] == ':';
    }
  }
}
