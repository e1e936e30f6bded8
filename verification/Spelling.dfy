/** How texts are cut into tokens, stated with the characters written out. */
module Spelling {
  import opened Text
  import opened ConfigTree
  import opened Lexer
  import opened TokenStream

  /** A space, a tab, a line feed or a carriage return in front of a token is skipped, and no other
      character is. */
  lemma SkippedIff(c: char, s: string)
    ensures c in {' ', '\t', '\n', '\r'} ==> NextToken([c] + s) == NextToken(s) && Lex([c] + s) == Lex(s)
    ensures c !in {' ', '\t', '\n', '\r'} ==> NextToken([c] + s).value != "" && NextToken([c] + s).value[0] == c
  {
    InitialStep(c, s);
    if IsBlank(c) {
      LexBlank(c, s);
    }
  }

  /** Neither a blank, nor a quotation mark, nor a character with a meaning of its own. */
  predicate BeginsWord(c: char) {
    c !in {' ', '\t', '\n', '\r', '"', '\'', '#', ';', '{', '}'}
  }

  /** A bare word goes on up to the first space, tab, line feed, semicolon or brace and no further; a
      carriage return, a quotation mark and a number sign do not end it. At the end of the file it is
      lost. */
  lemma WordEndsIff(w: string, d: char, r: string)
    requires w != "" && BeginsWord(w[0])
    requires forall i :: 1 <= i < |w| ==> w[i] !in {' ', '\t', '\n', ';', '{', '}'}
    ensures NextToken(w + [d] + r) == Lexeme(NORMAL, w, [d] + r) <==> d in {' ', '\t', '\n', ';', '{', '}'}
    ensures d in {' ', '\t', '\n', ';', '{', '}'} ==> Lex(w + [d] + r) == Lex([d] + r).Prepend([Word(w)])
    ensures NextToken(w) == Lexeme(EOF, w, "") && Lex(w) == Stream([], true)
  {
    assert IsBareWord(w);
    assert EndsWord(d) <==> d in {' ', '\t', '\n', ';', '{', '}'};
    hide IsBareWord;
    Concatenation(w, [d], r);
    BareWordIsReadIff(w, [d] + r);
    BareWordAtEnd(w);
    if EndsWord(d) {
      LexWord(w, [d] + r);
    }
  }

  /** The three characters that are tokens by themselves. */
  lemma PunctuationIsRead(s: string)
    ensures Lex([';'] + s) == Lex(s).Prepend([Semi])
    ensures Lex(['{'] + s) == Lex(s).Prepend([Open])
    ensures Lex(['}'] + s) == Lex(s).Prepend([Close])
  {
    LexPunctuation(s);
  }

  /** A quoted string runs to the next mark of the same kind, whatever is between, and keeps both
      marks; without that mark the text is rejected. */
  lemma QuotedIsOneWord(q: char, inner: string, s: string)
    requires q in {'"', '\''} && q !in inner
    ensures Lex([q] + inner + [q] + s) == Lex(s).Prepend([Word([q] + inner + [q])])
    ensures Lex([q] + inner) == Stream([], false)
  {
    var t := [q] + inner + [q];
    assert forall i :: 1 <= i < |t| - 1 ==> t[i] == inner[i - 1];
    assert IsQuoted(t);
    hide IsQuoted;
    LexableIsNormal(t, s);
    InitialStep(q, inner);
    SpanIff(AtQuote(q), inner, |inner|);
  }

  /** A comment runs to the next line feed or carriage return, or to the end of the file, and leaves
      nothing behind. */
  lemma CommentIsSkipped(c: string, d: char, s: string)
    requires '\n' !in c && '\r' !in c && d in {'\n', '\r'}
    ensures Lex(['#'] + c + [d] + s) == Lex(s)
    ensures Lex(['#'] + c) == Stream([], true)
  {
    CommentEnds(c, d, s);
    hide RestOfComment, NextToken;
    Concatenation(['#'], c, [d] + s);
    Concatenation(['#'] + c, [d], s);
    InitialStep('#', c + ([d] + s));
    InitialStep('#', c);
  }

  lemma CommentEnds(c: string, d: char, s: string)
    requires '\n' !in c && '\r' !in c && d in {'\n', '\r'}
    ensures RestOfComment("#", c + ([d] + s)) == Lexeme(COMMENT, "#" + c, s)
    ensures RestOfComment("#", c) == Lexeme(EOF, "#" + c, "")
  {
    var u := c + ([d] + s);
    assert forall i :: 0 <= i < |c| ==> u[i] == c[i] && !Stops(AtLineEnd, c[i]);
    SpanIff(AtLineEnd, u, |c|);
    SpanIff(AtLineEnd, c, |c|);
    assert u[..|c|] == c && u[|c| + 1..] == s;
  }
}
