/** Printing and parsing are inverse: the lexer reads a printed tree as the tokens it derives, the
    parser rebuilds it, and the printed form of any accepted text is a fixed point. */
module RoundTrip {
  import opened Text
  import opened ConfigTree
  import opened Lexer
  import opened TokenStream
  import opened ParserMachine

  /** Every statement has at least one token and every token is lexable, at all levels. */
  ghost predicate TokenisedStmt(s: Stmt)
    decreases s, 0
  {
    && s.tokens != []
    && (forall i :: 0 <= i < |s.tokens| ==> Lexable(s.tokens[i]))
    && (s.Block? ==> Tokenised(s.body))
  }

  ghost predicate Tokenised(stmts: seq<Stmt>)
    decreases stmts, 1
  {
    forall i :: 0 <= i < |stmts| ==> TokenisedStmt(stmts[i])
  }

  /** A configuration that the printed form can represent. */
  ghost predicate Printable(stmts: seq<Stmt>) {
    stmts != [] && WellFormed(stmts) && Tokenised(stmts)
  }

  // ----- lexing printed text -----

  lemma {:induction false} LexIndent(depth: int, s: string)
    ensures Lex(Indent(depth) + s) == Lex(s)
    decreases if depth > 0 then depth else 0
  {
    if depth <= 0 {
      assert Indent(depth) + s == s;
    } else {
      var t := Indent(depth - 1) + s;
      assert Indent(depth) + s == [' '] + ([' '] + t);
      LexBlank(' ', [' '] + t);
      LexBlank(' ', t);
      LexIndent(depth - 1, s);
    }
  }

  lemma JoinedCons(t: string, tail: seq<string>)
    ensures Joined([t] + tail) == if tail == [] then t else t + ([' '] + Joined(tail))
    ensures Words([t] + tail) == [Word(t)] + Words(tail)
  {
    assert ([t] + tail)[1..] == tail;
    assert t + " " + Joined(tail) == t + ([' '] + Joined(tail));
  }

  lemma {:induction false} LexJoined(tokens: seq<string>, r: string)
    requires tokens != [] && forall i :: 0 <= i < |tokens| ==> Lexable(tokens[i])
    requires r != "" && EndsWord(r[0])
    ensures Lex(Joined(tokens) + r) == Lex(r).Prepend(Words(tokens))
  {
    var t, tail := tokens[0], tokens[1..];
    assert tokens == [t] + tail;
    assert EndsWord(' ');
    hide *;
    JoinedCons(t, tail);
    if tail == [] {
      LexWord(t, r);
      assert Words(tokens) == [Word(t)];
    } else {
      var u := Joined(tail) + r;
      Concatenation(t, [' '] + Joined(tail), r);
      Concatenation([' '], Joined(tail), r);
      LexWord(t, [' '] + u);
      LexBlank(' ', u) by { assert IsBlank(' '); }
      LexJoined(tail, r);
      PrependTwice(Lex(r), [Word(t)], Words(tail));
    }
  }

  /** The indentation, the tokens and what follows them. */
  lemma LexHead(tokens: seq<string>, depth: int, r: string)
    requires tokens != [] && forall i :: 0 <= i < |tokens| ==> Lexable(tokens[i])
    requires r != "" && EndsWord(r[0])
    ensures Lex(Indent(depth) + Joined(tokens) + r) == Lex(r).Prepend(Words(tokens))
  {
    hide *;
    Concatenation(Indent(depth), Joined(tokens), r);
    LexIndent(depth, Joined(tokens) + r);
    LexJoined(tokens, r);
  }

  lemma LexSimpleTail(r: string)
    ensures Lex(";\n" + r) == Lex(r).Prepend([Semi])
  {
    assert ";\n" + r == ";" + (['\n'] + r);
    LexPunctuation(['\n'] + r);
    LexBlank('\n', r);
  }

  lemma LexOpening(r: string)
    ensures Lex(" {\n" + r) == Lex(r).Prepend([Open])
  {
    var t := "{" + (['\n'] + r);
    assert " {\n" + r == [' '] + t;
    LexBlank(' ', t);
    LexPunctuation(['\n'] + r);
    LexBlank('\n', r);
  }

  lemma LexClosing(depth: int, r: string)
    ensures Lex(Indent(depth) + "}\n" + r) == Lex(r).Prepend([Close])
  {
    var t := "}" + (['\n'] + r);
    assert Indent(depth) + "}\n" + r == Indent(depth) + t;
    LexIndent(depth, t);
    LexPunctuation(['\n'] + r);
    LexBlank('\n', r);
  }

  lemma PrintBlockAssoc(tokens: seq<string>, body: seq<Stmt>, depth: int, r: string)
    ensures PrintStmt(Block(tokens, body), depth) + r ==
            Indent(depth) + Joined(tokens)
            + (" {\n" + (Print(body, depth + 1) + (Indent(depth) + "}\n" + r)))
  {
  }

  lemma PrependBlock(stream: Stream, tokens: seq<string>, body: seq<Stmt>)
    ensures stream.Prepend([Close]).Prepend(Yield(body)).Prepend([Open]).Prepend(Words(tokens)) ==
            stream.Prepend(YieldStmt(Block(tokens, body)))
  {
    var inner := stream.Prepend([Close]).Prepend(Yield(body));
    PrependTwice(inner, Words(tokens), [Open]);
    PrependTwice(stream.Prepend([Close]), Words(tokens) + [Open], Yield(body));
    PrependTwice(stream, Words(tokens) + [Open] + Yield(body), [Close]);
  }

  lemma {:induction false} LexPrintStmt(s: Stmt, depth: int, r: string)
    requires TokenisedStmt(s)
    ensures Lex(PrintStmt(s, depth) + r) == Lex(r).Prepend(YieldStmt(s))
    decreases s, 0
  {
    match s
    case Simple(tokens) =>
      assert PrintStmt(s, depth) + r == Indent(depth) + Joined(tokens) + (";\n" + r);
      LexHead(tokens, depth, ";\n" + r);
      LexSimpleTail(r);
      PrependTwice(Lex(r), Words(tokens), [Semi]);
    case Block(tokens, body) =>
      var closing := Indent(depth) + "}\n" + r;
      var inside := Print(body, depth + 1) + closing;
      PrintBlockAssoc(tokens, body, depth, r);
      LexHead(tokens, depth, " {\n" + inside);
      LexOpening(inside);
      LexPrint(body, depth + 1, closing);
      LexClosing(depth, r);
      PrependBlock(Lex(r), tokens, body);
  }

  /** The lexer reads a printed tree as the token sequence that the tree derives. */
  lemma {:induction false} LexPrint(stmts: seq<Stmt>, depth: int, r: string)
    requires Tokenised(stmts)
    ensures Lex(Print(stmts, depth) + r) == Lex(r).Prepend(Yield(stmts))
    decreases stmts, 1
  {
    if stmts == [] {
      assert Print(stmts, depth) + r == r;
      assert Lex(r).Prepend([]) == Lex(r);
    } else {
      var s, tail := stmts[0], stmts[1..];
      assert Print(stmts, depth) + r == PrintStmt(s, depth) + (Print(tail, depth) + r);
      LexPrintStmt(s, depth, Print(tail, depth) + r);
      LexPrint(tail, depth, r);
      PrependTwice(Lex(r), YieldStmt(s), Yield(tail));
    }
  }

  // ----- trees built from lexed tokens -----

  lemma {:induction false} YieldTokenisedStmt(s: Stmt)
    requires WellFormedStmt(s)
    requires forall i :: 0 <= i < |YieldStmt(s)| && YieldStmt(s)[i].Word? ==> Lexable(YieldStmt(s)[i].text)
    ensures TokenisedStmt(s)
    decreases s, 0
  {
    var y, n := YieldStmt(s), |s.tokens|;
    forall i | 0 <= i < n
      ensures Lexable(s.tokens[i])
    {
      assert y[i] == Words(s.tokens)[i];
    }
    if s.Block? {
      var z := Yield(s.body);
      forall i | 0 <= i < |z| && z[i].Word?
        ensures Lexable(z[i].text)
      {
        assert y[n + 1 + i] == z[i];
      }
      YieldTokenised(s.body);
    }
  }

  lemma {:induction false} YieldTokenised(stmts: seq<Stmt>)
    requires WellFormed(stmts)
    requires forall i :: 0 <= i < |Yield(stmts)| && Yield(stmts)[i].Word? ==> Lexable(Yield(stmts)[i].text)
    ensures Tokenised(stmts)
    decreases stmts, 1
  {
    if stmts != [] {
      var a, b := YieldStmt(stmts[0]), Yield(stmts[1..]);
      assert forall i :: 0 <= i < |a| ==> a[i] == Yield(stmts)[i];
      assert forall i :: 0 <= i < |b| ==> b[i] == Yield(stmts)[|a| + i];
      YieldTokenisedStmt(stmts[0]);
      YieldTokenised(stmts[1..]);
      assert forall i :: 1 <= i < |stmts| ==> stmts[i] == stmts[1..][i - 1];
    }
  }

  /** Every accepted text yields a printable tree. */
  lemma AcceptedIsPrintable(text: string)
    requires ParseText([], text).ok
    ensures Printable(ParseText([], text).tree)
  {
    ParseIsGrammar([], text);
    var tree :| Derives(Lex(text).toks, tree);
    assert [] + tree == tree;
    WordsAreLexable(text);
    YieldTokenised(tree);
  }

  // ----- main results -----

  /** Print then parse: at every starting depth the text of a printable tree is accepted and the
      tree is rebuilt, behind whatever the caller's configuration held. */
  lemma PrintThenParse(init: seq<Stmt>, stmts: seq<Stmt>, depth: int)
    requires Printable(stmts)
    ensures ParseText(init, Print(stmts, depth)) == ParseResult(true, init + stmts)
  {
    LexPrint(stmts, depth, "");
    assert Print(stmts, depth) + "" == Print(stmts, depth);
    assert Yield(stmts) + [] == Yield(stmts);
    ParseIsGrammar(init, Print(stmts, depth));
  }

  /** The round trip succeeds for the printable trees and for no others. */
  lemma RoundTripIff(stmts: seq<Stmt>, depth: int)
    ensures ParseText([], Print(stmts, depth)) == ParseResult(true, stmts) <==> Printable(stmts)
  {
    if Printable(stmts) {
      PrintThenParse([], stmts, depth);
      assert [] + stmts == stmts;
    }
    if ParseText([], Print(stmts, depth)) == ParseResult(true, stmts) {
      AcceptedIsPrintable(Print(stmts, depth));
    }
  }

  /** Parse then print is a normalisation: parsing the printed form of an accepted text gives the
      same tree, hence the same printed form again. */
  lemma NormalisationIsFixedPoint(text: string, depth: int)
    requires ParseText([], text).ok
    ensures var printed := Print(ParseText([], text).tree, depth);
            && ParseText([], printed) == ParseText([], text)
            && Print(ParseText([], printed).tree, depth) == printed
  {
    AcceptedIsPrintable(text);
    RoundTripIff(ParseText([], text).tree, depth);
  }

  // ----- what a failed parse leaves behind -----

  ghost predicate TokenisedFrame(f: Frame) {
    Tokenised(f.done) && forall i :: 0 <= i < |f.tokens| ==> Lexable(f.tokens[i])
  }

  ghost predicate TokenisedState(st: PState) {
    st.Ok() && TokenisedFrame(st.top) && forall i :: 0 <= i < |st.outer| ==> TokenisedFrame(st.outer[i])
  }

  lemma StepKeepsTokenised(st: PState, tok: Tok)
    requires TokenisedState(st) && Step(st, tok).Some? && (tok.Word? ==> Lexable(tok.text))
    ensures TokenisedState(Step(st, tok).value)
  {
    var f := st.top;
    match tok
    case Word(t) =>
    case Semi =>
      assert TokenisedStmt(Simple(f.tokens));
    case Open =>
    case Close =>
      var g := st.outer[|st.outer| - 1];
      assert TokenisedStmt(Block(g.tokens, f.done));
  }

  lemma {:induction false} RunKeepsTokenised(st: PState, toks: seq<Tok>)
    requires TokenisedState(st)
    requires forall i :: 0 <= i < |toks| && toks[i].Word? ==> Lexable(toks[i].text)
    ensures TokenisedState(Run(st, toks).state)
    decreases toks
  {
    if toks != [] && Step(st, toks[0]).Some? {
      StepKeepsTokenised(st, toks[0]);
      RunKeepsTokenised(Step(st, toks[0]).value, toks[1..]);
    }
  }

  lemma {:induction false} PlugTokenised(outer: seq<Frame>, inner: seq<Stmt>)
    requires Tokenised(inner)
    requires forall i :: 0 <= i < |outer| ==> outer[i].tokens != [] && TokenisedFrame(outer[i])
    ensures Tokenised(Plug(outer, inner))
    decreases outer
  {
    if outer != [] {
      var f := outer[|outer| - 1];
      assert TokenisedStmt(Block(f.tokens, inner));
      PlugTokenised(outer[..|outer| - 1], f.done + [Block(f.tokens, inner)]);
    }
  }

  /** Even when parsing fails, every statement built so far has a token and only lexable ones; so a
      caller that ignores the answer of `Parse` still never finds an empty token. */
  lemma PartialTreeIsTokenised(text: string)
    ensures Tokenised(ParseText([], text).tree)
  {
    WordsAreLexable(text);
    RunKeepsTokenised(Start([]), Lex(text).toks);
    var st := Run(Start([]), Lex(text).toks).state;
    if st.top.tokens != [] {
      assert TokenisedStmt(Simple(st.top.tokens));
    }
    assert Tokenised(Content(st.top));
    PlugTokenised(st.outer, Content(st.top));
  }
}
