/** The filter language, from characters to verdicts: a text is accepted if and only if it is a sentence of the
    grammar, and its program judges packets by what the sentence says. */
module Language {
  import opened Words
  import opened Errors
  import opened Ast
  import opened LinkType
  import opened Vm
  import opened Desugar
  import opened Literals
  import opened Lexer
  import opened Parser
  import opened Compiler
  import opened SafeLength
  import opened Headers
  import opened Spelling
  import opened Grammar
  import opened Frontend

  /** The characters make up tokens, and the tokens spell this expression. */
  ghost predicate IsWritten(src: string, e: Expr, ip6: Ipv6Notation) {
    exists tokens :: Sentence(src, tokens, e, ip6)
  }

  ghost predicate Sentence(src: string, tokens: seq<Token>, e: Expr, ip6: Ipv6Notation) {
    MadeOf(src, 0, tokens) && Closed(Input(tokens, ip6)) && SpellsExpr(Input(tokens, ip6), e)
  }

  lemma LexedIsClosed(src: string, ip6: Ipv6Notation)
    requires LexFrom(src, 0).Ok?
    ensures Closed(Input(LexFrom(src, 0).value, ip6))
  {
    LexInOrder(src, 0);
  }

  /** Lexing and parsing a text yields an expression, spans included, if and only if it is written there. */
  lemma ReadsExactly(src: string, e: Expr, ip6: Ipv6Notation)
    ensures ParsedText(src, ip6) == Ok(e) <==> IsWritten(src, e, ip6)
  {
    if ParsedText(src, ip6) == Ok(e) {
      var tokens := LexFrom(src, 0).value;
      LexesExactly(src, tokens);
      LexedIsClosed(src, ip6);
      ParsesExactly(Input(tokens, ip6), e);
      assert Sentence(src, tokens, e, ip6);
    }
    if IsWritten(src, e, ip6) {
      var tokens :| Sentence(src, tokens, e, ip6);
      LexesExactly(src, tokens);
      ParsesExactly(Input(tokens, ip6), e);
    }
  }

  /** No text is written in two ways. */
  lemma WrittenOnce(src: string, e1: Expr, e2: Expr, ip6: Ipv6Notation)
    requires IsWritten(src, e1, ip6) && IsWritten(src, e2, ip6)
    ensures e1 == e2
  {
    ReadsExactly(src, e1, ip6);
    ReadsExactly(src, e2, ip6);
  }

  /** Compiled and run, a text judges every packet by what is written there, loads past the packet's end included. */
  lemma EndsAsWritten(src: string, e: Expr, link: LinkType, snaplen: u32, ip6: Ipv6Notation, packet: Bytes)
    requires IsWritten(src, e, ip6) && TextFits(src, link, ip6) && CompiledText(src, link, snaplen, ip6).Ok?
    ensures InSourceRange(e)
    ensures Ending(CompiledText(src, link, snaplen, ip6).value, packet) ==
            StopFor(SourceMeaning(e, link, packet), snaplen)
  {
    ReadsExactly(src, e, ip6);
    TextPreservation(src, link, snaplen, ip6, packet);
  }

  /** And a packet long enough to settle everything is accepted if and only if its headers have what is written. */
  lemma AcceptsAsWritten(src: string, e: Expr, link: LinkType, snaplen: u32, ip6: Ipv6Notation, packet: Bytes)
    requires IsWritten(src, e, ip6) && TextFits(src, link, ip6) && CompiledText(src, link, snaplen, ip6).Ok?
    requires LongEnough(link, packet)
    ensures Sensible(e, link)
    ensures Status(Ending(CompiledText(src, link, snaplen, ip6).value, packet)) ==
            if Asks(e, link, packet) then snaplen else 0
  {
    ReadsExactly(src, e, ip6);
    ParsedTextInRange(src, ip6);
    ExpandedInRange(e);
    AcceptsWhatItAsks(e, link, snaplen, packet);
  }
}
