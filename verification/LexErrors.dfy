/** Exactly which texts the lexer refuses, and at which character, in terms of the text alone. */
module LexErrors {
  import opened Errors
  import opened Lexer

  /** The signs that make an operator only in twos. */
  predicate IsSign(c: char) {
    c == '&' || c == '|'
  }

  predicate IsLegal(c: char) {
    IsWhitespace(c) || IsWordChar(c) || IsSign(c) || c == '(' || c == ')' || c == '-' || c == '!'
  }

  /** How many of the same character stand one after the other up to position `k`. */
  function RunTo(src: string, k: nat): (n: nat)
    requires k < |src|
    ensures 1 <= n <= k + 1
  {
    if k == 0 || src[k - 1] != src[k] then 1 else 1 + RunTo(src, k - 1)
  }

  /** A character that is part of no token and no white space, or the last of an odd number of equal signs. */
  predicate Offends(src: string, k: nat)
    requires k < |src|
  {
    || !IsLegal(src[k])
    || (IsSign(src[k]) && RunTo(src, k) % 2 == 1 && (k + 1 == |src| || src[k + 1] != src[k]))
  }

  /** Position `k` is the first from `i` on that offends. */
  ghost predicate FirstOffence(src: string, i: nat, k: nat) {
    i <= k < |src| && Offends(src, k) && forall j :: i <= j < k ==> !Offends(src, j)
  }

  function OffenceAt(src: string, k: nat): CompileError
    requires k < |src|
  {
    CompileError(Span(ByteAt(src, k), ByteAt(src, k) + 1), UnexpectedChar(src[k]))
  }

  /** Lexing stands in front of a whole number of pairs of signs: an even number of equal ones lies behind. */
  predicate Aligned(src: string, i: nat) {
    i < |src| && IsSign(src[i]) ==> RunTo(src, i) % 2 == 1
  }

  lemma WordCharOffendsNot(src: string, k: nat)
    requires k < |src| && IsWordChar(src[k])
    ensures !Offends(src, k) && !IsSign(src[k])
  {
  }

  lemma OneStep(src: string, i: nat)
    requires i < |src| && Aligned(src, i) && (IsWhitespace(src[i]) || TokenAt(src, i).Ok?)
    ensures Aligned(src, NextPosition(src, i))
    ensures forall k :: i <= k < NextPosition(src, i) ==> !Offends(src, k)
  {
    if !IsWhitespace(src[i]) && IsWordChar(src[i]) {
      var end := NextPosition(src, i);
      forall k | i <= k < end ensures !Offends(src, k) && !IsSign(src[k]) {
        WordCharOffendsNot(src, k);
      }
    }
  }

  lemma FailsHere(src: string, i: nat)
    requires i < |src| && Aligned(src, i) && !IsWhitespace(src[i]) && TokenAt(src, i).Err?
    ensures Offends(src, i) && TokenAt(src, i).error == OffenceAt(src, i)
  {
  }

  lemma {:induction false} LexFailsFrom(src: string, i: nat)
    requires i <= |src| && Aligned(src, i)
    ensures LexFrom(src, i).Ok? <==> forall k :: i <= k < |src| ==> !Offends(src, k)
    ensures LexFrom(src, i).Err? ==> exists k :: FirstOffence(src, i, k) && LexFrom(src, i).error == OffenceAt(src, k)
    decreases |src| - i
  {
    if i < |src| {
      if !IsWhitespace(src[i]) && TokenAt(src, i).Err? {
        FailsHere(src, i);
        assert FirstOffence(src, i, i);
      } else {
        var next := NextPosition(src, i);
        OneStep(src, i);
        LexFailsFrom(src, next);
        LexStep(src, i);
        if LexFrom(src, next).Err? {
          var k :| FirstOffence(src, next, k) && LexFrom(src, next).error == OffenceAt(src, k);
          assert FirstOffence(src, i, k);
        }
      }
    }
  }

  lemma LexStep(src: string, i: nat)
    requires i < |src| && (IsWhitespace(src[i]) || TokenAt(src, i).Ok?)
    ensures var next := NextPosition(src, i);
            && (LexFrom(src, i).Ok? <==> LexFrom(src, next).Ok?)
            && (LexFrom(src, i).Err? ==> LexFrom(src, i).error == LexFrom(src, next).error)
  {
  }

  /** A text is refused if and only if some character offends, and the error is the first that does. */
  lemma LexFails(src: string)
    ensures LexFrom(src, 0).Ok? <==> forall k :: 0 <= k < |src| ==> !Offends(src, k)
    ensures LexFrom(src, 0).Err? ==> exists k :: FirstOffence(src, 0, k) && LexFrom(src, 0).error == OffenceAt(src, k)
  {
    LexFailsFrom(src, 0);
  }

  /** It lies within the text. */
  lemma OffenceInside(src: string)
    requires LexFrom(src, 0).Err?
    ensures LexFrom(src, 0).error.at.start < LexFrom(src, 0).error.at.end <= ByteAt(src, |src|)
  {
    LexFails(src);
    var k :| FirstOffence(src, 0, k) && LexFrom(src, 0).error == OffenceAt(src, k);
    BytesGrow(src, k, |src|);
  }
}
