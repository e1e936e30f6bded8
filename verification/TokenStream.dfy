/** What the lexer makes of whole texts: progress, the set of possible tokens, and the stream of
    tokens with its comments dropped. */
module TokenStream {
  import opened Text
  import opened ConfigTree
  import opened Lexer

  // ----- which strings are tokens -----

  predicate IsQuoted(t: string) {
    && 2 <= |t| && IsQuote(t[0]) && t[|t| - 1] == t[0]
    && forall i :: 1 <= i < |t| - 1 ==> t[i] != t[0]
  }

  predicate IsBareWord(t: string) {
    && 1 <= |t| && StartsWord(t[0])
    && forall i :: 1 <= i < |t| ==> !EndsWord(t[i])
  }

  /** A closed quoted string or a bare word. */
  predicate Lexable(t: string) {
    IsQuoted(t) || IsBareWord(t)
  }

  /** Every lexer call except at the end or on an error consumes input, so parsing terminates. */
  lemma NextTokenProgress(s: string)
    ensures var x := NextToken(s);
            && (x.kind != EOF && x.kind != ERROR ==> |x.rest| < |s|)
            && (x.kind == EOF || x.kind == ERROR ==> x.rest == "")
            && x.kind != START
  {
    var t := SkipBlanks(s);
    if t != "" && StartsWord(t[0]) {
      var n := Span(AtWordEnd, t[1..]);
      SpanIff(AtWordEnd, t[1..], n);
    }
  }

  /** Whatever the lexer delivers as a NORMAL token is a lexable string. */
  lemma NormalIsLexable(s: string)
    requires NextToken(s).kind == NORMAL
    ensures Lexable(NextToken(s).value)
  {
    var t := SkipBlanks(s);
    var u, v := t[1..], NextToken(s).value;
    if IsQuote(t[0]) {
      var n := Span(AtQuote(t[0]), u);
      SpanIff(AtQuote(t[0]), u, n);
      assert v == [t[0]] + u[..n + 1];
      assert forall i :: 1 <= i < |v| ==> v[i] == u[i - 1];
    } else {
      var n := Span(AtWordEnd, u);
      SpanIff(AtWordEnd, u, n);
      assert v == [t[0]] + u[..n];
      assert forall i :: 1 <= i < |v| ==> v[i] == u[i - 1];
    }
  }

  lemma QuotedIsRead(quote: char, inner: string, r: string)
    requires forall i :: 0 <= i < |inner| ==> inner[i] != quote
    ensures RestOfQuoted(quote, [quote], inner + [quote] + r) == Lexeme(NORMAL, [quote] + inner + [quote], r)
  {
    var u, n := inner + [quote] + r, |inner|;
    SpanIff(AtQuote(quote), u, n);
    assert u[..n + 1] == inner + [quote] && u[n + 1..] == r;
  }

  lemma BareWordIsRead(c: char, tail: string, r: string)
    requires forall i :: 0 <= i < |tail| ==> !EndsWord(tail[i])
    requires r != "" && EndsWord(r[0])
    ensures RestOfWord([c], tail + r) == Lexeme(NORMAL, [c] + tail, r)
  {
    var u, n := tail + r, |tail|;
    SpanIff(AtWordEnd, u, n);
    assert u[..n] == tail && u[n..] == r;
  }

  /** A lexable string is read back as one token: a quoted string whatever follows it, a bare word
      when something that ends words follows it. */
  lemma LexableIsNormal(t: string, r: string)
    requires IsQuoted(t) || (IsBareWord(t) && r != "" && EndsWord(r[0]))
    ensures NextToken(t + r) == Lexeme(NORMAL, t, r)
  {
    var c := t[0];
    var tail := t[1..];
    assert t == [c] + tail;
    assert t + r == [c] + (tail + r);
    InitialStep(c, tail + r);
    if IsQuoted(t) {
      var inner := t[1..|t| - 1];
      assert tail == inner + [c];
      QuotedIsRead(c, inner, r);
      assert [c] + inner + [c] == t;
    } else {
      BareWordIsRead(c, tail, r);
    }
  }

  // ----- the stream -----

  lemma BareWordAtEnd(t: string)
    requires IsBareWord(t)
    ensures NextToken(t) == Lexeme(EOF, t, "")
  {
    var c, tail := t[0], t[1..];
    assert t == [c] + tail;
    InitialStep(c, tail);
    SpanIff(AtWordEnd, tail, |tail|);
    assert [c] + tail == t;
  }

  /** A bare word is read back as such if and only if a character follows that ends it; at the end of
      the file it is reported as EOF, and so lost. */
  lemma BareWordIsReadIff(t: string, r: string)
    requires IsBareWord(t)
    ensures NextToken(t + r) == Lexeme(NORMAL, t, r) <==> r != "" && EndsWord(r[0])
    ensures NextToken(t).kind == EOF
  {
    BareWordAtEnd(t);
    if r == "" {
      assert t + r == t;
    } else if EndsWord(r[0]) {
      LexableIsNormal(t, r);
    } else {
      var c, tail := t[0], t[1..] + r;
      assert t + r == [c] + tail;
      InitialStep(c, tail);
      assert tail[|t| - 1] == r[0];
      SpanIff(AtWordEnd, tail, |t| - 1);
    }
  }

  /** The tokens of a text in order, comments dropped; `clean` says that the text ended at an end of
      file rather than inside a quoted string. */
  datatype Stream = Stream(toks: seq<Tok>, clean: bool) {
    function Prepend(front: seq<Tok>): Stream {
      Stream(front + toks, clean)
    }
  }

  function TokOf(x: Lexeme): Tok
    requires x.kind in {NORMAL, START_BLOCK, END_BLOCK, STATEMENT_END}
  {
    match x.kind
    case NORMAL => Word(x.value)
    case START_BLOCK => Open
    case END_BLOCK => Close
    case _ => Semi
  }

  function Lex(s: string): Stream
    decreases |s|
  {
    var x := NextToken(s);
    NextTokenProgress(s);
    if x.kind == EOF then Stream([], true)
    else if x.kind == ERROR then Stream([], false)
    else if x.kind == COMMENT then Lex(x.rest)
    else Lex(x.rest).Prepend([TokOf(x)])
  }

  /** The number of lexer calls that reading `s` to its end takes, the last one included. */
  function LexerCalls(s: string): (n: nat)
    ensures 1 <= n <= |s| + 1
    decreases |s|
  {
    var x := NextToken(s);
    NextTokenProgress(s);
    if x.kind == EOF || x.kind == ERROR then 1 else 1 + LexerCalls(x.rest)
  }

  lemma LexerCallsStep(s: string)
    ensures var x := NextToken(s);
            LexerCalls(s) == if x.kind == EOF || x.kind == ERROR then 1 else 1 + LexerCalls(x.rest)
  {
  }

  lemma PrependTwice(s: Stream, a: seq<Tok>, b: seq<Tok>)
    ensures s.Prepend(b).Prepend(a) == s.Prepend(a + b)
  {
    assert a + (b + s.toks) == (a + b) + s.toks;
  }

  /** Only lexable words reach the parser. */
  lemma {:induction false} WordsAreLexable(s: string)
    ensures forall i :: 0 <= i < |Lex(s).toks| && Lex(s).toks[i].Word? ==> Lexable(Lex(s).toks[i].text)
    decreases |s|
  {
    var x := NextToken(s);
    NextTokenProgress(s);
    if x.kind != EOF && x.kind != ERROR {
      WordsAreLexable(x.rest);
      if x.kind == NORMAL {
        NormalIsLexable(s);
      }
    }
  }

  lemma LexBlank(c: char, s: string)
    requires IsBlank(c)
    ensures Lex([c] + s) == Lex(s)
  {
    InitialStep(c, s);
  }

  lemma LexPunctuation(s: string)
    ensures Lex(";" + s) == Lex(s).Prepend([Semi])
    ensures Lex("{" + s) == Lex(s).Prepend([Open])
    ensures Lex("}" + s) == Lex(s).Prepend([Close])
  {
    InitialStep(';', s);
    InitialStep('{', s);
    InitialStep('}', s);
  }

  lemma LexWord(t: string, r: string)
    requires Lexable(t) && r != "" && EndsWord(r[0])
    ensures Lex(t + r) == Lex(r).Prepend([Word(t)])
  {
    LexableIsNormal(t, r);
  }
}
