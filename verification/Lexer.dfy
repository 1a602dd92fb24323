/** Text to tokens. Texts are sequences of Unicode characters, and spans count their UTF-8 bytes. */
module Lexer {
  import opened Errors

  datatype TokenTag = Word(text: string) | Dash | LParen | RParen | Eof

  datatype Token = Token(tag: TokenTag, at: Span)

  predicate IsWordChar(c: char) {
    ('a' <= c <= 'z') || ('A' <= c <= 'Z') || ('0' <= c <= '9') || c == '.' || c == ':' || c == '/'
  }

  /** The characters Unicode calls white space. */
  predicate IsWhitespace(c: char) {
    var n := c as nat;
    c == ' ' || 9 <= n <= 13 || n == 0x85 || n == 0xa0 || n == 0x1680 || 0x2000 <= n <= 0x200a ||
    n == 0x2028 || n == 0x2029 || n == 0x202f || n == 0x205f || n == 0x3000
  }

  /** The bytes of a character in UTF-8. */
  function Utf8Len(c: char): (n: nat)
    ensures 1 <= n <= 4
  {
    var n := c as nat;
    if n < 0x80 then 1 else if n < 0x800 then 2 else if n < 0x1_0000 then 3 else 4
  }

  /** The byte offset of character `i`. */
  function ByteAt(src: string, i: nat): nat
    requires i <= |src|
  {
    if i == 0 then 0 else ByteAt(src, i - 1) + Utf8Len(src[i - 1])
  }

  lemma {:induction false} BytesGrow(src: string, i: nat, j: nat)
    requires i <= j <= |src|
    ensures ByteAt(src, i) + (j - i) <= ByteAt(src, j)
    decreases j
  {
    if i < j {
      BytesGrow(src, i, j - 1);
    }
  }

  // ----- what lexing yields -----

  /** Where the run of word characters from `i` on ends. */
  function WordEnd(src: string, i: nat): (j: nat)
    requires i <= |src|
    ensures i <= j <= |src|
    ensures forall k :: i <= k < j ==> IsWordChar(src[k])
    ensures j < |src| ==> !IsWordChar(src[j])
    decreases |src| - i
  {
    if i < |src| && IsWordChar(src[i]) then WordEnd(src, i + 1) else i
  }

  function Before(t: Token, rest: Result<seq<Token>, CompileError>): Result<seq<Token>, CompileError> {
    match rest
    case Ok(tokens) => Ok([t] + tokens)
    case Err(e) => Err(e)
  }

  /** The token that starts at position `i`, and the position behind it. */
  function TokenAt(src: string, i: nat): (r: Result<(Token, nat), CompileError>)
    requires i < |src|
    ensures r.Ok? ==> i < r.value.1 <= |src| && r.value.0.tag != Eof
  {
    var at, c := ByteAt(src, i), src[i];
    if c == '(' then Ok((Token(LParen, Span(at, at + 1)), i + 1))
    else if c == ')' then Ok((Token(RParen, Span(at, at + 1)), i + 1))
    else if c == '-' then Ok((Token(Dash, Span(at, at + 1)), i + 1))
    else if c == '!' then Ok((Token(Word("not"), Span(at, at + 1)), i + 1))
    else if c == '&' || c == '|' then
      if i + 1 < |src| && src[i + 1] == c then
        Ok((Token(Word(if c == '&' then "and" else "or"), Span(at, at + 2)), i + 2))
      else Err(CompileError(Span(at, at + 1), UnexpectedChar(c)))
    else if IsWordChar(c) then
      var end := WordEnd(src, i + 1);
      Ok((Token(Word(src[i..end]), Span(at, ByteAt(src, end))), end))
    else Err(CompileError(Span(at, at + 1), UnexpectedChar(c)))
  }

  /** The tokens of the text from position `i` on, `Eof` last, or the first offending character. */
  function LexFrom(src: string, i: nat): (r: Result<seq<Token>, CompileError>)
    requires i <= |src|
    ensures r.Ok? ==> |r.value| > 0 && r.value[|r.value| - 1].tag == Eof
    decreases |src| - i
  {
    if i == |src| then Ok([Token(Eof, Span(ByteAt(src, i), ByteAt(src, i)))])
    else if IsWhitespace(src[i]) then LexFrom(src, i + 1)
    else match TokenAt(src, i)
      case Ok((t, next)) => Before(t, LexFrom(src, next))
      case Err(e) => Err(e)
  }

  function Joined(tokens: seq<Token>, rest: Result<seq<Token>, CompileError>): Result<seq<Token>, CompileError> {
    match rest
    case Ok(more) => Ok(tokens + more)
    case Err(e) => Err(e)
  }

  /** A result of lexing from `i` on. Statements about all such results, like the two that follow, can be
      passed on by a proof without unfolding the lexer. */
  ghost predicate Lexed(r: Result<seq<Token>, CompileError>, src: string, i: nat)
    requires i <= |src|
  {
    r == LexFrom(src, i)
  }

  /** Whatever lexing from `i` on yields, behind these tokens it is what lexing the whole text yields. */
  ghost predicate Continues(tokens: seq<Token>, src: string, i: nat)
    requires i <= |src|
  {
    forall r :: Lexed(r, src, i) ==> Lexed(Joined(tokens, r), src, 0)
  }

  lemma ContinuesFromStart(src: string)
    ensures Continues([], src, 0)
  {
    forall r | Lexed(r, src, 0) ensures Lexed(Joined([], r), src, 0) {
      assert r.Ok? ==> [] + r.value == r.value;
    }
  }

  lemma ContinuesPastSpace(tokens: seq<Token>, src: string, i: nat)
    requires i < |src| && IsWhitespace(src[i]) && Continues(tokens, src, i)
    ensures Continues(tokens, src, i + 1)
  {
    forall r | Lexed(r, src, i + 1) ensures Lexed(Joined(tokens, r), src, 0) {
      assert Lexed(r, src, i);
    }
  }

  lemma ContinuesPastToken(tokens: seq<Token>, t: Token, src: string, i: nat, next: nat)
    requires i < |src| && !IsWhitespace(src[i]) && TokenAt(src, i) == Ok((t, next)) && Continues(tokens, src, i)
    ensures Continues(tokens + [t], src, next)
  {
    forall r | Lexed(r, src, next) ensures Lexed(Joined(tokens + [t], r), src, 0) {
      JoinedBefore(tokens, t, r);
      assert Lexed(Before(t, r), src, i);
    }
  }

  lemma StopsAtError(tokens: seq<Token>, src: string, i: nat)
    requires i < |src| && !IsWhitespace(src[i]) && TokenAt(src, i).Err? && Continues(tokens, src, i)
    ensures LexFrom(src, 0) == Err(TokenAt(src, i).error)
  {
    assert Lexed(LexFrom(src, i), src, i);
  }

  lemma StopsAtEnd(tokens: seq<Token>, src: string)
    requires Continues(tokens, src, |src|)
    ensures LexFrom(src, 0) == Ok(tokens + [Token(Eof, Span(ByteAt(src, |src|), ByteAt(src, |src|)))])
  {
    assert Lexed(LexFrom(src, |src|), src, |src|);
  }

  lemma JoinedBefore(tokens: seq<Token>, t: Token, rest: Result<seq<Token>, CompileError>)
    ensures Joined(tokens, Before(t, rest)) == Joined(tokens + [t], rest)
  {
    if rest.Ok? {
      assert tokens + ([t] + rest.value) == tokens + [t] + rest.value;
    }
  }

  method Lex(src: string) returns (r: Result<seq<Token>, CompileError>)
    ensures r == LexFrom(src, 0)
  {
    var tokens: seq<Token> := [];
    var i, at := 0, 0;
    ContinuesFromStart(src);
    while i < |src|
      invariant i <= |src| && at == ByteAt(src, i)
      invariant Continues(tokens, src, i)
    {
      var first, start, c := i, at, src[i];
      i, at := i + 1, at + Utf8Len(c);
      assert at == ByteAt(src, i);
      if IsWhitespace(c) {
        ContinuesPastSpace(tokens, src, first);
        continue;
      }
      var t: Token;
      if c == '(' {
        t := Token(LParen, Span(start, start + 1));
      } else if c == ')' {
        t := Token(RParen, Span(start, start + 1));
      } else if c == '-' {
        t := Token(Dash, Span(start, start + 1));
      } else if c == '!' {
        t := Token(Word("not"), Span(start, start + 1));
      } else if c == '&' || c == '|' {
        if i == |src| || src[i] != c {
          StopsAtError(tokens, src, first);
          return Err(CompileError(Span(start, start + 1), UnexpectedChar(c)));
        }
        i, at := i + 1, at + 1;
        t := Token(Word(if c == '&' then "and" else "or"), Span(start, start + 2));
      } else if IsWordChar(c) {
        while i < |src| && IsWordChar(src[i])
          invariant first < i <= |src| && at == ByteAt(src, i) && WordEnd(src, first + 1) == WordEnd(src, i)
        {
          i, at := i + 1, at + Utf8Len(src[i]);
        }
        t := Token(Word(src[first..i]), Span(start, at));
      } else {
        StopsAtError(tokens, src, first);
        return Err(CompileError(Span(start, start + 1), UnexpectedChar(c)));
      }
      ContinuesPastToken(tokens, t, src, first, i);
      tokens := tokens + [t];
    }
    StopsAtEnd(tokens, src);
    return Ok(tokens + [Token(Eof, Span(at, at))]);
  }

  // ----- spans -----

  /** Tokens stand in order without overlapping, all of them but `Eof` nonempty, and `Eof` stands last
      and only there. */
  ghost predicate InOrder(tokens: seq<Token>, from: nat, end: nat) {
    && tokens != []
    && tokens[|tokens| - 1] == Token(Eof, Span(end, end))
    && (forall i :: 0 <= i < |tokens| - 1 ==>
          tokens[i].tag != Eof && from <= tokens[i].at.start < tokens[i].at.end <= end)
    && (forall i, j :: 0 <= i < j < |tokens| ==> tokens[i].at.end <= tokens[j].at.start)
  }

  ghost predicate Covered(tokens: seq<Token>, k: nat) {
    exists i :: 0 <= i < |tokens| && tokens[i].at.start <= k < tokens[i].at.end
  }

  /** Where lexing goes on after the token, or the white space, at `i`. */
  function NextPosition(src: string, i: nat): (j: nat)
    requires i < |src|
    ensures i < j <= |src|
  {
    if !IsWhitespace(src[i]) && TokenAt(src, i).Ok? then TokenAt(src, i).value.1 else i + 1
  }

  /** A token spans the characters up to the next position, and is one the lexer can read back. */
  lemma TokenSpans(src: string, i: nat)
    requires i < |src| && TokenAt(src, i).Ok?
    ensures var (t, next) := TokenAt(src, i).value; t.at == Span(ByteAt(src, i), ByteAt(src, next)) && Readable(t.tag)
  {
    if src[i] == '&' || src[i] == '|' {
      assert ByteAt(src, i + 2) == ByteAt(src, i + 1) + 1;
    }
  }

  /** Off white space, lexing yields the token spanning from here to the next position, then the others. */
  lemma FirstToken(src: string, i: nat) returns (t: Token)
    requires i < |src| && !IsWhitespace(src[i]) && LexFrom(src, i).Ok?
    ensures t.at == Span(ByteAt(src, i), ByteAt(src, NextPosition(src, i))) && Readable(t.tag)
    ensures LexFrom(src, NextPosition(src, i)).Ok?
    ensures LexFrom(src, i).value == [t] + LexFrom(src, NextPosition(src, i)).value
  {
    t := TokenAt(src, i).value.0;
    TokenSpans(src, i);
  }

  lemma {:induction false} LexInOrder(src: string, i: nat)
    requires i <= |src| && LexFrom(src, i).Ok?
    ensures InOrder(LexFrom(src, i).value, ByteAt(src, i), ByteAt(src, |src|))
    decreases |src| - i
  {
    if i < |src| {
      var next := NextPosition(src, i);
      LexInOrder(src, next);
      BytesGrow(src, i, next);
      if !IsWhitespace(src[i]) {
        var t := FirstToken(src, i);
        BytesGrow(src, next, |src|);
        InOrderCons(t, LexFrom(src, next).value, ByteAt(src, next), ByteAt(src, |src|));
      }
    }
  }

  lemma InOrderCons(t: Token, rest: seq<Token>, from: nat, end: nat)
    requires InOrder(rest, from, end) && t.tag != Eof && t.at.start < t.at.end == from <= end
    ensures InOrder([t] + rest, t.at.start, end)
  {
    var all := [t] + rest;
    forall i, j | 0 <= i < j < |all| ensures all[i].at.end <= all[j].at.start {
      assert all[j] == rest[j - 1];
    }
  }

  lemma CoveredCons(t: Token, rest: seq<Token>, k: nat)
    ensures Covered([t] + rest, k) <==> t.at.start <= k < t.at.end || Covered(rest, k)
  {
    var all := [t] + rest;
    assert all[0] == t;
    if Covered(rest, k) {
      var j :| 0 <= j < |rest| && rest[j].at.start <= k < rest[j].at.end;
      assert all[j + 1] == rest[j];
    }
    if Covered(all, k) {
      var j :| 0 <= j < |all| && all[j].at.start <= k < all[j].at.end;
      assert j > 0 ==> all[j] == rest[j - 1];
    }
  }

  /** The tokens cover exactly the characters that are not white space. */
  lemma {:induction false} LexCovers(src: string, i: nat, k: nat)
    requires i <= k < |src| && LexFrom(src, i).Ok?
    ensures Covered(LexFrom(src, i).value, ByteAt(src, k)) <==> !IsWhitespace(src[k])
    decreases |src| - i
  {
    if IsWhitespace(src[i]) {
      if k > i {
        LexCovers(src, i + 1, k);
      } else {
        SpaceIsBare(src, i);
      }
    } else {
      var next := NextPosition(src, i);
      var t := FirstToken(src, i);
      CoveredCons(t, LexFrom(src, next).value, ByteAt(src, k));
      if k < next {
        BytesGrow(src, i, k);
        BytesGrow(src, k, next);
        TokenIsNotSpace(src, i, k);
      } else {
        BytesGrow(src, next, k);
        LexCovers(src, next, k);
      }
    }
  }

  lemma SpaceIsBare(src: string, i: nat)
    requires i < |src| && IsWhitespace(src[i]) && LexFrom(src, i).Ok?
    ensures !Covered(LexFrom(src, i).value, ByteAt(src, i))
  {
    LexInOrder(src, i + 1);
    BytesGrow(src, i, |src|);
    BareInFront(LexFrom(src, i + 1).value, ByteAt(src, i + 1), ByteAt(src, |src|), ByteAt(src, i));
  }

  lemma BareInFront(tokens: seq<Token>, from: nat, end: nat, k: nat)
    requires InOrder(tokens, from, end) && k < from && k < end
    ensures !Covered(tokens, k)
  {
  }

  lemma WordCharIsNotSpace(c: char)
    ensures IsWordChar(c) ==> !IsWhitespace(c)
  {
  }

  lemma TokenIsNotSpace(src: string, i: nat, k: nat)
    requires i < |src| && !IsWhitespace(src[i]) && TokenAt(src, i).Ok? && i <= k < TokenAt(src, i).value.1
    ensures !IsWhitespace(src[k])
  {
    WordCharIsNotSpace(src[k]);
  }

  // ----- writing tokens out again -----

  /** A word the lexer can read back: one or more word characters. */
  predicate Readable(tag: TokenTag) {
    match tag
    case Word(w) => w != "" && forall i :: 0 <= i < |w| ==> IsWordChar(w[i])
    case Eof => false
    case _ => true
  }

  function TagText(tag: TokenTag): string {
    match tag
    case Word(w) => w
    case Dash => "-"
    case LParen => "("
    case RParen => ")"
    case Eof => ""
  }

  /** Token texts, each followed by a space. */
  function Render(tags: seq<TokenTag>): string {
    if tags == [] then "" else TagText(tags[0]) + " " + Render(tags[1..])
  }

  function Tags(tokens: seq<Token>): seq<TokenTag> {
    seq(|tokens|, i requires 0 <= i < |tokens| => tokens[i].tag)
  }

  lemma {:induction false} LexReadable(src: string, i: nat)
    requires i <= |src| && LexFrom(src, i).Ok?
    ensures forall k :: 0 <= k < |LexFrom(src, i).value| - 1 ==> Readable(LexFrom(src, i).value[k].tag)
    decreases |src| - i
  {
    if i < |src| {
      LexReadable(src, NextPosition(src, i));
      if !IsWhitespace(src[i]) {
        var t := FirstToken(src, i);
      }
    }
  }

  /** A readable tag spelled out and followed by a space is the token here. */
  lemma TagIsToken(src: string, i: nat, tag: TokenTag)
    requires Readable(tag) && i + |TagText(tag)| < |src|
    requires src[i..i + |TagText(tag)|] == TagText(tag) && src[i + |TagText(tag)|] == ' '
    ensures var end := i + |TagText(tag)|;
            !IsWhitespace(src[i]) && TokenAt(src, i) == Ok((Token(tag, Span(ByteAt(src, i), ByteAt(src, end))), end))
  {
    var text := TagText(tag);
    var end := i + |text|;
    assert src[i] == text[0];
    if tag.Word? {
      forall k | i <= k < end
        ensures IsWordChar(src[k])
      {
        assert src[k] == text[k - i];
      }
      WordCharIsNotSpace(src[i]);
      assert WordEnd(src, i + 1) == end;
    }
  }

  lemma TagThere(src: string, i: nat, tag: TokenTag)
    requires Readable(tag) && i + |TagText(tag)| < |src|
    requires src[i..i + |TagText(tag)|] == TagText(tag) && src[i + |TagText(tag)|] == ' '
    ensures var end := i + |TagText(tag)|;
            LexFrom(src, i) == Before(Token(tag, Span(ByteAt(src, i), ByteAt(src, end))), LexFrom(src, end + 1))
  {
    TagIsToken(src, i, tag);
    SpaceSkipped(src, i + |TagText(tag)|);
  }

  lemma SpaceSkipped(src: string, i: nat)
    requires i < |src| && src[i] == ' '
    ensures LexFrom(src, i) == LexFrom(src, i + 1)
  {
  }

  lemma SpelledOut(src: string, i: nat, text: string, rest: string)
    requires i <= |src| && src[i..] == text + " " + rest
    ensures i + |text| < |src| && src[i..i + |text|] == text && src[i + |text|] == ' ' && src[i + |text| + 1..] == rest
  {
    assert src[i..][..|text|] == text;
    assert src[i..][|text|] == ' ';
    assert src[i..][|text| + 1..] == rest;
  }

  /** The tokens carry these tags, and `Eof` behind them. */
  ghost predicate Carry(r: Result<seq<Token>, CompileError>, tags: seq<TokenTag>) {
    r.Ok? && Tags(r.value) == tags + [Eof]
  }

  predicate AllReadable(tags: seq<TokenTag>) {
    forall k :: 0 <= k < |tags| ==> Readable(tags[k])
  }

  /** Whatever lexing the text from `i` on yields carries these tags. */
  ghost predicate LexesTo(src: string, i: nat, tags: seq<TokenTag>)
    requires i <= |src|
  {
    forall r :: Lexed(r, src, i) ==> Carry(r, tags)
  }

  /** Text that spells out readable tags from `i` on lexes to those tags. */
  lemma {:induction false} LexRendered(src: string, i: nat, tags: seq<TokenTag>)
    requires i <= |src| && src[i..] == Render(tags) && AllReadable(tags)
    ensures LexesTo(src, i, tags)
    decreases |tags|
  {
    if tags == [] {
      LexEnd(src, i);
    } else {
      var end := RenderedTag(src, i, tags);
      LexRendered(src, end + 1, tags[1..]);
      TagInFront(src, i, end, tags);
    }
  }

  lemma TagInFront(src: string, i: nat, end: nat, tags: seq<TokenTag>)
    requires tags != [] && Readable(tags[0]) && end == i + |TagText(tags[0])| < |src|
    requires src[i..end] == TagText(tags[0]) && src[end] == ' ' && LexesTo(src, end + 1, tags[1..])
    ensures LexesTo(src, i, tags)
  {
    assert Lexed(LexFrom(src, end + 1), src, end + 1);
    TagThere(src, i, tags[0]);
    TagsCons(Token(tags[0], Span(ByteAt(src, i), ByteAt(src, end))), LexFrom(src, end + 1), tags);
  }

  lemma LexEnd(src: string, i: nat)
    requires i <= |src| && src[i..] == ""
    ensures LexesTo(src, i, [])
  {
    assert i == |src|;
    var at := ByteAt(src, i);
    assert Tags([Token(Eof, Span(at, at))]) == [] + [Eof];
  }

  lemma RenderedTag(src: string, i: nat, tags: seq<TokenTag>) returns (end: nat)
    requires i <= |src| && tags != [] && src[i..] == Render(tags)
    ensures end == i + |TagText(tags[0])| < |src| && src[end + 1..] == Render(tags[1..])
    ensures src[i..end] == TagText(tags[0]) && src[end] == ' '
  {
    end := i + |TagText(tags[0])|;
    SpelledOut(src, i, TagText(tags[0]), Render(tags[1..]));
  }

  lemma TagsCons(t: Token, rest: Result<seq<Token>, CompileError>, tags: seq<TokenTag>)
    requires tags != [] && t.tag == tags[0] && Carry(rest, tags[1..])
    ensures Carry(Before(t, rest), tags)
  {
    assert Tags([t] + rest.value) == [t.tag] + Tags(rest.value);
    assert tags + [Eof] == [tags[0]] + (tags[1..] + [Eof]);
  }

  /** Lexing is stable: writing out the tokens of any text, one space after each, and lexing that gives
      the same tags. */
  lemma RelexingIsStable(src: string)
    requires LexFrom(src, 0).Ok?
    ensures var tags := Tags(LexFrom(src, 0).value);
            var again := LexFrom(Render(tags[..|tags| - 1]), 0);
            again.Ok? && Tags(again.value) == tags
  {
    var tokens := LexFrom(src, 0).value;
    var tags := Tags(tokens);
    LexReadable(src, 0);
    LexInOrder(src, 0);
    var words := tags[..|tags| - 1];
    var text := Render(words);
    assert text[0..] == text;
    LexRendered(text, 0, words);
    assert Lexed(LexFrom(text, 0), text, 0);
    assert tags == words + [Eof];
  }
}
