/** The lexer of the configuration language: the character-by-character state machine over an input
    stream, and the function on the remaining text that it computes. */
module Lexer {
  import opened Text

  datatype TokenType = START | NORMAL | START_BLOCK | END_BLOCK | COMMENT | STATEMENT_END | EOF | ERROR

  datatype State = InitialWhitespace | SingleQuote | DoubleQuote | InComment | InWord

  // ----- the text-level description -----

  /** What ends a bare word. A carriage return does not. */
  predicate EndsWord(c: char) {
    c == ' ' || c == '\t' || c == '\n' || c == ';' || c == '{' || c == '}'
  }

  predicate IsQuote(c: char) {
    c == '"' || c == '\''
  }

  /** What can begin a bare word. */
  predicate StartsWord(c: char) {
    !IsBlank(c) && !IsQuote(c) && c != '{' && c != '}' && c != '#' && c != ';'
  }

  /** The places at which a scan can stop. */
  datatype Stop = AtQuote(quote: char) | AtLineEnd | AtWordEnd

  predicate Stops(stop: Stop, c: char) {
    match stop
    case AtQuote(q) => c == q
    case AtLineEnd => c == '\n' || c == '\r'
    case AtWordEnd => EndsWord(c)
  }

  /** The number of characters before the first stop, or all of them when there is none. */
  function Span(stop: Stop, s: string): (n: nat)
    ensures n <= |s|
  {
    if s == "" || Stops(stop, s[0]) then 0 else 1 + Span(stop, s[1..])
  }

  lemma {:induction false} SpanIff(stop: Stop, s: string, n: nat)
    requires n <= |s|
    ensures Span(stop, s) == n <==>
            (forall i :: 0 <= i < n ==> !Stops(stop, s[i])) && (n < |s| ==> Stops(stop, s[n]))
  {
    if s != "" && !Stops(stop, s[0]) && n != 0 {
      SpanIff(stop, s[1..], n - 1);
      assert forall i :: 1 <= i <= n && i < |s| ==> s[i] == s[1..][i - 1];
    }
  }

  /** One lexer call: the kind of token, its text, and the input that remains. */
  datatype Lexeme = Lexeme(kind: TokenType, value: string, rest: string)

  /** A quoted string whose opening part `value` has been read: it needs its closing quote. */
  function RestOfQuoted(quote: char, value: string, s: string): Lexeme {
    var n := Span(AtQuote(quote), s);
    if n == |s| then Lexeme(ERROR, value + s, "")
    else Lexeme(NORMAL, value + s[..n + 1], s[n + 1..])
  }

  /** A comment needs its line end; one that runs into the end of the file is reported as EOF. */
  function RestOfComment(value: string, s: string): Lexeme {
    var n := Span(AtLineEnd, s);
    if n == |s| then Lexeme(EOF, value + s, "")
    else Lexeme(COMMENT, value + s[..n], s[n + 1..])
  }

  /** A bare word that runs into the end of the file is reported as EOF, hence dropped. */
  function RestOfWord(value: string, s: string): Lexeme {
    var n := Span(AtWordEnd, s);
    if n == |s| then Lexeme(EOF, value + s, "")
    else Lexeme(NORMAL, value + s[..n], s[n..])
  }

  /** The token at the front of `s`. */
  function NextToken(s: string): Lexeme {
    var t := SkipBlanks(s);
    if t == "" then Lexeme(EOF, "", "")
    else if t[0] == '{' then Lexeme(START_BLOCK, "{", t[1..])
    else if t[0] == '}' then Lexeme(END_BLOCK, "}", t[1..])
    else if t[0] == ';' then Lexeme(STATEMENT_END, ";", t[1..])
    else if t[0] == '#' then RestOfComment("#", t[1..])
    else if IsQuote(t[0]) then RestOfQuoted(t[0], [t[0]], t[1..])
    else RestOfWord([t[0]], t[1..])
  }

  // ----- the stream and the state machine -----

  /** An input stream: `get` past the last character makes the stream no longer good. */
  class InputStream {
    const data: string
    var pos: nat
    var good: bool

    ghost predicate Valid()
      reads this
    {
      pos <= |data|
    }

    /** What the stream can still deliver. */
    ghost function Rest(): string
      reads this
      requires Valid()
    {
      if good then data[pos..] else ""
    }

    constructor (text: string)
      ensures Valid() && Rest() == text
    {
      data, pos, good := text, 0, true;
      new;
      assert data[0..] == text;
    }

    method Get() returns (c: char)
      requires Valid() && good
      modifies this
      ensures Valid()
      ensures old(Rest()) == "" ==> !good && Rest() == ""
      ensures old(Rest()) != "" ==> good && c == old(Rest())[0] && Rest() == old(Rest())[1..]
      ensures old(Rest()) != "" ==> pos == old(pos) + 1
    {
      if pos < |data| {
        c := data[pos];
        pos := pos + 1;
      } else {
        c := '\U{ff}';
        good := false;
      }
    }

    method Unget()
      requires Valid() && good && 0 < pos
      modifies this
      ensures Valid() && good && Rest() == [data[old(pos) - 1]] + old(Rest())
    {
      pos := pos - 1;
      assert data[pos..] == [data[pos]] + data[pos + 1..];
    }
  }

  /** What the state machine will still answer from a state, the text collected, and the rest. */
  ghost function Resume(state: State, value: string, s: string): Lexeme {
    match state
    case InitialWhitespace => NextToken(s)
    case SingleQuote => RestOfQuoted('\'', value, s)
    case DoubleQuote => RestOfQuoted('"', value, s)
    case InComment => RestOfComment(value, s)
    case InWord => RestOfWord(value, s)
  }

  lemma InitialStep(c: char, s: string)
    ensures c == '{' ==> NextToken([c] + s) == Lexeme(START_BLOCK, [c], s)
    ensures c == '}' ==> NextToken([c] + s) == Lexeme(END_BLOCK, [c], s)
    ensures c == ';' ==> NextToken([c] + s) == Lexeme(STATEMENT_END, [c], s)
    ensures c == '#' ==> NextToken([c] + s) == RestOfComment([c], s)
    ensures IsQuote(c) ==> NextToken([c] + s) == RestOfQuoted(c, [c], s)
    ensures IsBlank(c) ==> NextToken([c] + s) == NextToken(s)
    ensures StartsWord(c) ==> NextToken([c] + s) == RestOfWord([c], s)
  {
    assert ([c] + s)[1..] == s;
    assert SkipBlanks([c] + s) == if IsBlank(c) then SkipBlanks(s) else [c] + s;
  }

  lemma SpanStep(stop: Stop, c: char, s: string)
    ensures Span(stop, [c] + s) == if Stops(stop, c) then 0 else Span(stop, s) + 1
  {
    assert ([c] + s)[1..] == s;
  }

  lemma SliceStep(value: string, c: char, s: string, n: nat)
    requires n <= |s|
    ensures value + ([c] + s)[..n + 1] == (value + [c]) + s[..n]
    ensures ([c] + s)[n + 1..] == s[n..]
  {
    assert ([c] + s)[..n + 1] == [c] + s[..n];
  }

  lemma QuotedStep(quote: char, value: string, c: char, s: string)
    ensures RestOfQuoted(quote, value, [c] + s) ==
            if c == quote then Lexeme(NORMAL, value + [c], s) else RestOfQuoted(quote, value + [c], s)
  {
    SpanStep(AtQuote(quote), c, s);
    SliceStep(value, c, s, |s|);
    var n := Span(AtQuote(quote), s);
    if c == quote {
      SliceStep(value, c, s, 0);
    } else if n < |s| {
      SliceStep(value, c, s, n + 1);
    }
  }

  lemma CommentStep(value: string, c: char, s: string)
    ensures RestOfComment(value, [c] + s) ==
            if Stops(AtLineEnd, c) then Lexeme(COMMENT, value, s) else RestOfComment(value + [c], s)
  {
    SpanStep(AtLineEnd, c, s);
    SliceStep(value, c, s, |s|);
    var n := Span(AtLineEnd, s);
    if Stops(AtLineEnd, c) {
      SliceStep(value, c, s, 0);
    } else if n < |s| {
      SliceStep(value, c, s, n);
      SliceStep(value, c, s, n + 1);
    }
  }

  lemma WordStep(value: string, c: char, s: string)
    ensures RestOfWord(value, [c] + s) ==
            if EndsWord(c) then Lexeme(NORMAL, value, [c] + s) else RestOfWord(value + [c], s)
  {
    SpanStep(AtWordEnd, c, s);
    SliceStep(value, c, s, |s|);
    SliceStep(value, c, s, Span(AtWordEnd, s));
  }

  lemma ResumeStart(s: string)
    ensures Resume(InitialWhitespace, "", s) == NextToken(s)
  {
  }

  lemma ResumeInitial(value: string, c: char, s: string)
    ensures var r := Resume(InitialWhitespace, value, [c] + s);
            && (c == '{' ==> r == Lexeme(START_BLOCK, [c], s))
            && (c == '}' ==> r == Lexeme(END_BLOCK, [c], s))
            && (c == ';' ==> r == Lexeme(STATEMENT_END, [c], s))
            && (c == '#' ==> r == Resume(InComment, [c], s))
            && (c == '"' ==> r == Resume(DoubleQuote, [c], s))
            && (c == '\'' ==> r == Resume(SingleQuote, [c], s))
            && (IsBlank(c) ==> r == Resume(InitialWhitespace, value, s))
            && (StartsWord(c) ==> r == Resume(InWord, [c], s))
  {
    InitialStep(c, s);
    hide NextToken;
  }

  lemma ResumeQuoted(value: string, c: char, s: string)
    ensures Resume(SingleQuote, value, [c] + s) ==
            if c == '\'' then Lexeme(NORMAL, value + [c], s) else Resume(SingleQuote, value + [c], s)
    ensures Resume(DoubleQuote, value, [c] + s) ==
            if c == '"' then Lexeme(NORMAL, value + [c], s) else Resume(DoubleQuote, value + [c], s)
  {
    QuotedStep('\'', value, c, s);
    QuotedStep('"', value, c, s);
    hide RestOfQuoted;
  }

  lemma ResumeComment(value: string, c: char, s: string)
    ensures Resume(InComment, value, [c] + s) ==
            if c == '\n' || c == '\r' then Lexeme(COMMENT, value, s) else Resume(InComment, value + [c], s)
  {
    CommentStep(value, c, s);
    hide RestOfComment;
  }

  lemma ResumeWord(value: string, c: char, s: string)
    ensures Resume(InWord, value, [c] + s) ==
            if EndsWord(c) then Lexeme(NORMAL, value, [c] + s) else Resume(InWord, value + [c], s)
  {
    WordStep(value, c, s);
    hide RestOfWord;
  }

  lemma ResumeEnd(state: State, value: string)
    requires state == InitialWhitespace ==> value == ""
    ensures Resume(state, value, "") ==
            Lexeme(if state == SingleQuote || state == DoubleQuote then ERROR else EOF, value, "")
  {
    assert value + "" == value;
  }

  /** The state machine of the lexer, with its one character of push-back. */
  method ParseToken(input: InputStream) returns (kind: TokenType, value: string)
    requires input.Valid()
    modifies input
    ensures input.Valid()
    ensures Lexeme(kind, value, input.Rest()) == NextToken(old(input.Rest()))
  {
    hide Resume, NextToken, RestOfQuoted, RestOfComment, RestOfWord, Span, SkipBlanks;
    ghost var answer := NextToken(input.Rest());
    ResumeStart(input.Rest());
    ghost var rest := input.Rest();
    var state := InitialWhitespace;
    value := "";
    while input.good
      invariant input.Valid() && rest == input.Rest()
      invariant state == InitialWhitespace ==> value == ""
      invariant Resume(state, value, rest) == answer
      decreases |rest|, input.good
    {
      var c := input.Get();
      if !input.good {
        break;
      }
      assert rest == [c] + rest[1..];
      rest := rest[1..];
      match state
      case InitialWhitespace =>
        ResumeInitial(value, c, rest);
        assert "" + [c] == [c];
        if c == '{' {
          return START_BLOCK, [c];
        } else if c == '}' {
          return END_BLOCK, [c];
        } else if c == '#' {
          value := [c];
          state := InComment;
        } else if c == '"' {
          value := [c];
          state := DoubleQuote;
        } else if c == '\'' {
          value := [c];
          state := SingleQuote;
        } else if c == ';' {
          return STATEMENT_END, [c];
        } else if IsBlank(c) {
        } else {
          value := value + [c];
          state := InWord;
        }
      case SingleQuote =>
        ResumeQuoted(value, c, rest);
        value := value + [c];
        if c == '\'' {
          return NORMAL, value;
        }
      case DoubleQuote =>
        ResumeQuoted(value, c, rest);
        value := value + [c];
        if c == '"' {
          return NORMAL, value;
        }
      case InComment =>
        ResumeComment(value, c, rest);
        if c == '\n' || c == '\r' {
          return COMMENT, value;
        }
        value := value + [c];
      case InWord =>
        ResumeWord(value, c, rest);
        if EndsWord(c) {
          input.Unget();
          return NORMAL, value;
        }
        value := value + [c];
    }
    ResumeEnd(state, value);
    if state == SingleQuote || state == DoubleQuote {
      return ERROR, value;
    }
    return EOF, value;
  }
}
