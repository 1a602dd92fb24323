/** Which tokens a text is made of, said of the characters alone, and that the lexer yields those and no others. */
module Spelling {
  import opened Errors
  import opened Lexer

  /** The code points with the property White_Space of the Unicode Standard. */
  predicate IsBlank(c: char) {
    c as nat in {0x9, 0xa, 0xb, 0xc, 0xd, 0x20, 0x85, 0xa0, 0x1680, 0x2000, 0x2001, 0x2002, 0x2003, 0x2004, 0x2005,
                 0x2006, 0x2007, 0x2008, 0x2009, 0x200a, 0x2028, 0x2029, 0x202f, 0x205f, 0x3000}
  }

  /** Full stop, slash, digits and colon are neighbours in ASCII; then the letters. */
  predicate IsWordCode(c: char) {
    0x2e <= c as nat <= 0x3a || 0x41 <= c as nat <= 0x5a || 0x61 <= c as nat <= 0x7a
  }

  /** The characters of a token. */
  predicate Spells(text: string, tag: TokenTag) {
    match tag
    case LParen => text == "("
    case RParen => text == ")"
    case Dash => text == "-"
    case Eof => false
    case Word(w) =>
      || (text == "!" && w == "not")
      || (text == "&&" && w == "and")
      || (text == "||" && w == "or")
      || (text != "" && w == text && forall k :: 0 <= k < |text| ==> IsWordCode(text[k]))
  }

  /** From character `from` to character `end` the text spells this token, and where it is a run of word
      characters, all of the run. */
  ghost predicate StandsAt(src: string, from: nat, end: nat, t: Token) {
    && from < end <= |src|
    && t.at == Span(ByteAt(src, from), ByteAt(src, end))
    && Spells(src[from..end], t.tag)
    && (IsWordCode(src[from]) ==> end == |src| || !IsWordCode(src[end]))
  }

  ghost predicate BlankBetween(src: string, i: nat, j: nat) {
    i <= j <= |src| && forall k :: i <= k < j ==> IsBlank(src[k])
  }

  /** From character `i` on the text is made of these tokens, in order, with nothing but white space before each
      of them and before its end. */
  ghost predicate MadeOf(src: string, i: nat, tokens: seq<Token>)
    decreases |tokens|
  {
    if tokens == [] then false
    else if |tokens| == 1 then
      BlankBetween(src, i, |src|) && tokens[0] == Token(Eof, Span(ByteAt(src, |src|), ByteAt(src, |src|)))
    else
      exists from: nat, end: nat ::
        BlankBetween(src, i, from) && StandsAt(src, from, end, tokens[0]) && MadeOf(src, end, tokens[1..])
  }

  lemma SameCharacters(c: char)
    ensures IsBlank(c) <==> IsWhitespace(c)
    ensures IsWordCode(c) <==> IsWordChar(c)
    ensures IsWordCode(c) ==> !IsBlank(c) && c !in {'(', ')', '-', '!', '&', '|'}
  {
  }

  // ----- what the lexer yields -----

  lemma {:induction false} BlankIsSkipped(src: string, i: nat, j: nat)
    requires BlankBetween(src, i, j)
    ensures LexFrom(src, i) == LexFrom(src, j)
    decreases j - i
  {
    if i < j {
      SameCharacters(src[i]);
      BlankIsSkipped(src, i + 1, j);
    }
  }

  /** The end of the white space at `i`. */
  function BlankEnd(src: string, i: nat): (j: nat)
    requires i <= |src|
    ensures BlankBetween(src, i, j) && (j < |src| ==> !IsBlank(src[j]))
    decreases |src| - i
  {
    if i < |src| && IsBlank(src[i]) then BlankEnd(src, i + 1) else i
  }

  lemma TokenStands(src: string, i: nat)
    requires i < |src| && TokenAt(src, i).Ok?
    ensures StandsAt(src, i, TokenAt(src, i).value.1, TokenAt(src, i).value.0)
  {
    var (t, end) := TokenAt(src, i).value;
    TokenSpans(src, i);
    SameCharacters(src[i]);
    if IsWordChar(src[i]) {
      forall k | 0 <= k < end - i ensures IsWordCode(src[i..end][k]) {
        SameCharacters(src[i + k]);
      }
      if end < |src| {
        SameCharacters(src[end]);
      }
    }
  }

  lemma {:induction false} LexedIsMadeOf(src: string, i: nat)
    requires i <= |src| && LexFrom(src, i).Ok?
    ensures MadeOf(src, i, LexFrom(src, i).value)
    decreases |src| - i
  {
    var from := BlankEnd(src, i);
    BlankIsSkipped(src, i, from);
    if from < |src| {
      SameCharacters(src[from]);
      var (t, end) := TokenAt(src, from).value;
      TokenStands(src, from);
      LexedIsMadeOf(src, end);
      TokenBefore(src, i, from, end, t, LexFrom(src, end).value);
    }
  }

  lemma TokenBefore(src: string, i: nat, from: nat, end: nat, t: Token, rest: seq<Token>)
    requires BlankBetween(src, i, from) && StandsAt(src, from, end, t) && MadeOf(src, end, rest)
    ensures MadeOf(src, i, [t] + rest)
  {
    assert ([t] + rest)[1..] == rest;
  }

  // ----- and nothing else -----

  lemma {:induction false} RunEnds(src: string, i: nat, end: nat)
    requires i <= end <= |src| && forall k :: i <= k < end ==> IsWordChar(src[k])
    requires end == |src| || !IsWordChar(src[end])
    ensures WordEnd(src, i) == end
    decreases end - i
  {
    if i < end {
      RunEnds(src, i + 1, end);
    }
  }

  lemma StandsIsToken(src: string, from: nat, end: nat, t: Token)
    requires StandsAt(src, from, end, t)
    ensures !IsBlank(src[from]) && TokenAt(src, from) == Ok((t, end))
  {
    var text := src[from..end];
    assert text[0] == src[from];
    SameCharacters(src[from]);
    if IsWordCode(src[from]) {
      forall k | from <= k < end ensures IsWordChar(src[k]) {
        assert src[k] == text[k - from];
        SameCharacters(src[k]);
      }
      if end < |src| {
        SameCharacters(src[end]);
      }
      RunEnds(src, from + 1, end);
    } else if |text| == 2 {
      assert text[1] == src[from + 1];
      assert ByteAt(src, from + 2) == ByteAt(src, from + 1) + Utf8Len(src[from + 1]);
    }
  }

  lemma TokenThenRest(src: string, from: nat, end: nat, t: Token, rest: seq<Token>)
    requires StandsAt(src, from, end, t) && LexFrom(src, end) == Ok(rest)
    ensures LexFrom(src, from) == Ok([t] + rest)
  {
    StandsIsToken(src, from, end, t);
    SameCharacters(src[from]);
  }

  lemma {:induction false} MadeOfIsLexed(src: string, i: nat, tokens: seq<Token>)
    requires i <= |src| && MadeOf(src, i, tokens)
    ensures LexFrom(src, i) == Ok(tokens)
    decreases |tokens|
  {
    if |tokens| == 1 {
      BlankIsSkipped(src, i, |src|);
      assert tokens == [tokens[0]];
    } else {
      var from: nat, end: nat :|
        BlankBetween(src, i, from) && StandsAt(src, from, end, tokens[0]) && MadeOf(src, end, tokens[1..]);
      BlankIsSkipped(src, i, from);
      MadeOfIsLexed(src, end, tokens[1..]);
      TokenThenRest(src, from, end, tokens[0], tokens[1..]);
      assert tokens == [tokens[0]] + tokens[1..];
    }
  }

  /** The lexer yields exactly the tokens a text is made of. */
  lemma LexesExactly(src: string, tokens: seq<Token>)
    ensures LexFrom(src, 0) == Ok(tokens) <==> MadeOf(src, 0, tokens)
  {
    if LexFrom(src, 0).Ok? {
      LexedIsMadeOf(src, 0);
    }
    if MadeOf(src, 0, tokens) {
      MadeOfIsLexed(src, 0, tokens);
    }
  }

  // ----- byte offsets -----

  /** The UTF-8 bytes of a character, section 3 of RFC 3629. */
  function Utf8(c: char): (bytes: seq<nat>)
    ensures |bytes| == 1 ==> bytes[0] < 0x80
    ensures |bytes| == 2 ==> 0xc2 <= bytes[0] <= 0xdf
    ensures |bytes| == 3 ==> 0xe0 <= bytes[0] <= 0xef && (bytes[0] == 0xe0 ==> 0xa0 <= bytes[1])
    ensures |bytes| == 4 ==> 0xf0 <= bytes[0] <= 0xf4 && (bytes[0] == 0xf0 ==> 0x90 <= bytes[1])
    ensures forall k :: 1 <= k < |bytes| ==> 0x80 <= bytes[k] <= 0xbf
  {
    var n := c as nat;
    match Utf8Len(c)
    case 1 => [n]
    case 2 => [0xc0 + n / 0x40, 0x80 + n % 0x40]
    case 3 => [0xe0 + n / 0x1000, 0x80 + n / 0x40 % 0x40, 0x80 + n % 0x40]
    case _ => [0xf0 + n / 0x4_0000, 0x80 + n / 0x1000 % 0x40, 0x80 + n / 0x40 % 0x40, 0x80 + n % 0x40]
  }

  function Utf8All(text: string): seq<nat> {
    if text == "" then [] else Utf8All(text[..|text| - 1]) + Utf8(text[|text| - 1])
  }

  /** Offsets count the bytes of the text in UTF-8. */
  lemma {:induction false} OffsetsCountBytes(src: string, i: nat)
    requires i <= |src|
    ensures ByteAt(src, i) == |Utf8All(src[..i])|
  {
    if i > 0 {
      OffsetsCountBytes(src, i - 1);
      assert src[..i][..i - 1] == src[..i - 1];
    }
  }
}
