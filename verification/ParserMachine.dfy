/** The parser as a stack machine over tokens, and its equivalence with the grammar. */
module ParserMachine {
  import opened Text
  import opened ConfigTree
  import opened Lexer
  import opened TokenStream

  /** One open block: its finished statements, and the tokens of the statement under construction
      (none when no statement has been begun). */
  datatype Frame = Frame(done: seq<Stmt>, tokens: seq<string>)

  /** The stack: the enclosing blocks, outermost first, then the innermost open block; and the kind
      of the last token accepted. */
  datatype PState = PState(outer: seq<Frame>, top: Frame, last: TokenType) {
    ghost predicate Ok() {
      && last in {START, NORMAL, START_BLOCK, STATEMENT_END, END_BLOCK}
      && (last == NORMAL <==> top.tokens != [])
      && forall i :: 0 <= i < |outer| ==> outer[i].tokens != []
    }

    /** The end of the input is acceptable here. */
    predicate AtEnd() {
      outer == [] && last in {STATEMENT_END, END_BLOCK}
    }
  }

  /** A caller's configuration with the statements `init`, before the first token. */
  function Start(init: seq<Stmt>): PState {
    PState([], Frame(init, []), START)
  }

  /** One transition; None is a rejected token. */
  function Step(st: PState, tok: Tok): Option<PState> {
    var f := st.top;
    match tok
    case Word(t) => Some(PState(st.outer, Frame(f.done, f.tokens + [t]), NORMAL))
    case Semi =>
      if st.last != NORMAL then None
      else Some(PState(st.outer, Frame(f.done + [Simple(f.tokens)], []), STATEMENT_END))
    case Open =>
      if st.last != NORMAL then None
      else Some(PState(st.outer + [f], Frame([], []), START_BLOCK))
    case Close =>
      if (st.last != STATEMENT_END && st.last != END_BLOCK) || st.outer == [] then None
      else Some(Closing(st))
  }

  /** The innermost block becomes the body of the statement under construction around it. */
  function Closing(st: PState): PState
    requires st.outer != []
  {
    var n := |st.outer|;
    var g := st.outer[n - 1];
    PState(st.outer[..n - 1], Frame(g.done + [Block(g.tokens, st.top.done)], []), END_BLOCK)
  }

  datatype Outcome = Outcome(ok: bool, state: PState)

  /** Feeds tokens to the machine until one is rejected. */
  function Run(st: PState, toks: seq<Tok>): Outcome
    decreases toks
  {
    if toks == [] then Outcome(true, st)
    else
      match Step(st, toks[0])
      case None => Outcome(false, st)
      case Some(next) => Run(next, toks[1..])
  }

  /** The statements that a frame holds, an unfinished one included. */
  function Content(f: Frame): seq<Stmt> {
    f.done + if f.tokens == [] then [] else [Simple(f.tokens)]
  }

  /** The statements of the outermost block when `inner` is what the innermost open block holds. */
  function Plug(outer: seq<Frame>, inner: seq<Stmt>): seq<Stmt> {
    if outer == [] then inner
    else
      var f := outer[|outer| - 1];
      Plug(outer[..|outer| - 1], f.done + [Block(f.tokens, inner)])
  }

  /** The whole configuration that a state stands for. */
  function Rebuild(st: PState): seq<Stmt> {
    Plug(st.outer, Content(st.top))
  }

  lemma RebuildSemi(st: PState)
    requires st.last == NORMAL && st.top.tokens != []
    ensures Rebuild(Step(st, Semi).value) == Rebuild(st)
  {
    assert Content(Step(st, Semi).value.top) == Content(st.top);
  }

  lemma RebuildClosing(st: PState)
    requires st.outer != [] && st.top.tokens == []
    ensures Rebuild(Closing(st)) == Rebuild(st)
  {
    assert Content(st.top) == st.top.done;
    assert Content(Closing(st).top) == Closing(st).top.done;
  }

  /** What parsing a text into a configuration that already holds `init` answers, and what the
      configuration then holds: the whole tree on success, the part built so far on failure. */
  datatype ParseResult = ParseResult(ok: bool, tree: seq<Stmt>)

  function ParseText(init: seq<Stmt>, text: string): ParseResult {
    ParseFrom(Start(init), text)
  }

  /** What parsing will answer from the state `st` with `text` still to be read. */
  function ParseFrom(st: PState, text: string): ParseResult {
    var stream := Lex(text);
    var r := Run(st, stream.toks);
    ParseResult(r.ok && stream.clean && r.state.AtEnd(), Rebuild(r.state))
  }

  lemma ParseTextIsParseFrom(init: seq<Stmt>, text: string)
    ensures ParseText(init, text) == ParseFrom(Start(init), text)
  {
  }

  lemma StartShape(init: seq<Stmt>)
    ensures var st := Start(init);
            st.Ok() && st.outer == [] && st.top == Frame(init, []) && st.last == START
  {
  }

  lemma AtEndShape(st: PState)
    ensures st.AtEnd() <==> st.outer == [] && (st.last == STATEMENT_END || st.last == END_BLOCK)
  {
  }

  /** What a token does to a parse that has reached `st`. */
  ghost predicate Continues(st: PState, text: string, tok: Tok, rest: string) {
    match Step(st, tok)
    case None => ParseFrom(st, text) == ParseResult(false, Rebuild(st))
    case Some(next) => ParseFrom(st, text) == ParseFrom(next, rest)
  }

  lemma ParseFromStep(st: PState, text: string)
    ensures var x := NextToken(text);
            match x.kind
            case START => false
            case NORMAL => Continues(st, text, Word(x.value), x.rest)
            case STATEMENT_END => Continues(st, text, Semi, x.rest)
            case START_BLOCK => Continues(st, text, Open, x.rest)
            case END_BLOCK => Continues(st, text, Close, x.rest)
            case COMMENT => ParseFrom(st, text) == ParseFrom(st, x.rest)
            case EOF => ParseFrom(st, text) == ParseResult(st.AtEnd(), Rebuild(st))
            case ERROR => ParseFrom(st, text) == ParseResult(false, Rebuild(st))
  {
    var x := NextToken(text);
    NextTokenProgress(text);
    if x.kind in {NORMAL, START_BLOCK, END_BLOCK, STATEMENT_END} {
      assert Lex(text).toks[1..] == Lex(x.rest).toks;
    }
  }

  /** Which tokens are accepted, and the shape of the state after them. */
  lemma StepShape(st: PState)
    ensures forall t :: Step(st, Word(t)).Some?
                        && var n := Step(st, Word(t)).value; n.last == NORMAL && n.outer == st.outer
    ensures Step(st, Semi).Some? <==> st.last == NORMAL
    ensures Step(st, Open).Some? <==> st.last == NORMAL
    ensures Step(st, Close).Some? <==> st.last in {STATEMENT_END, END_BLOCK} && st.outer != []
    ensures st.last == NORMAL ==>
              && (var n := Step(st, Semi).value; n.last == STATEMENT_END && n.outer == st.outer)
              && (var n := Step(st, Open).value; n.last == START_BLOCK && |n.outer| == |st.outer| + 1)
    ensures Step(st, Close).Some? ==>
              var n := Step(st, Close).value;
              n == Closing(st) && n.last == END_BLOCK && |n.outer| == |st.outer| - 1
  {
  }

  // ----- soundness: what has been consumed is the yield of what has been built -----

  /** The tokens behind the enclosing blocks of the innermost one. */
  ghost function Entered(outer: seq<Frame>): seq<Tok> {
    if outer == [] then []
    else
      var f := outer[|outer| - 1];
      Entered(outer[..|outer| - 1]) + Yield(f.done) + Words(f.tokens) + [Open]
  }

  ghost function Consumed(st: PState): seq<Tok> {
    Entered(st.outer) + Yield(st.top.done) + Words(st.top.tokens)
  }

  /** Everything finished is well formed, and a block can only be closed when it has a statement. */
  ghost predicate Sound(st: PState) {
    && st.Ok()
    && WellFormed(st.top.done)
    && (forall i :: 0 <= i < |st.outer| ==> WellFormed(st.outer[i].done))
    && (st.last in {STATEMENT_END, END_BLOCK} ==> st.top.done != [])
  }

  lemma WellFormedSnoc(stmts: seq<Stmt>, s: Stmt)
    requires WellFormed(stmts) && WellFormedStmt(s)
    ensures WellFormed(stmts + [s])
  {
  }

  lemma OpenStepIsSound(st: PState)
    requires Sound(st) && st.last == NORMAL
    ensures Sound(Step(st, Open).value)
    ensures Consumed(Step(st, Open).value) == Consumed(st) + [Open]
  {
    assert Words([]) == [] && Yield([]) == [];
    assert (st.outer + [st.top])[..|st.outer|] == st.outer;
  }

  lemma ConsumedUnder(outer: seq<Frame>, g: Frame, f: Frame, last: TokenType)
    requires f.tokens == []
    ensures Consumed(PState(outer + [g], f, last)) ==
            Entered(outer) + Yield(g.done) + Words(g.tokens) + [Open] + Yield(f.done)
  {
    assert (outer + [g])[..|outer|] == outer;
    assert Words([]) == [];
  }

  lemma ConsumedClosed(outer: seq<Frame>, g: Frame, body: seq<Stmt>)
    ensures Consumed(PState(outer, Frame(g.done + [Block(g.tokens, body)], []), END_BLOCK)) ==
            Entered(outer) + Yield(g.done) + Words(g.tokens) + [Open] + Yield(body) + [Close]
  {
    YieldSnoc(g.done, Block(g.tokens, body));
    assert Words([]) == [];
    hide Entered, Yield;
    Regroup(Entered(outer), Yield(g.done), Words(g.tokens), Yield(body));
  }

  lemma Regroup(a: seq<Tok>, b: seq<Tok>, w: seq<Tok>, y: seq<Tok>)
    ensures a + (b + (w + [Open] + y + [Close])) + [] == a + b + w + [Open] + y + [Close]
  {
  }

  lemma CloseStepIsSound(st: PState)
    requires Sound(st) && Step(st, Close).Some?
    ensures Sound(Step(st, Close).value)
    ensures Consumed(Step(st, Close).value) == Consumed(st) + [Close]
  {
    var n := |st.outer| - 1;
    var f, g, outer := st.top, st.outer[n], st.outer[..n];
    WellFormedSnoc(g.done, Block(g.tokens, f.done));
    assert st.outer == outer + [g];
    assert st == PState(outer + [g], f, st.last);
    hide Consumed, Entered, Yield;
    ConsumedUnder(outer, g, f, st.last);
    ConsumedClosed(outer, g, f.done);
  }

  /** Every transition appends its token to what has been consumed and keeps the built part sound. */
  lemma StepIsSound(st: PState, tok: Tok)
    requires Sound(st) && Step(st, tok).Some?
    ensures Sound(Step(st, tok).value)
    ensures Consumed(Step(st, tok).value) == Consumed(st) + [tok]
  {
    var f := st.top;
    match tok
    case Word(t) =>
      assert Words(f.tokens + [t]) == Words(f.tokens) + [Word(t)];
    case Semi =>
      YieldSnoc(f.done, Simple(f.tokens));
      WellFormedSnoc(f.done, Simple(f.tokens));
      assert Words([]) == [];
    case Open =>
      OpenStepIsSound(st);
    case Close =>
      CloseStepIsSound(st);
  }

  lemma {:induction false} RunIsSound(st: PState, toks: seq<Tok>)
    requires Sound(st) && Run(st, toks).ok
    ensures Sound(Run(st, toks).state)
    ensures Consumed(Run(st, toks).state) == Consumed(st) + toks
    decreases toks
  {
    if toks != [] {
      StepIsSound(st, toks[0]);
      RunIsSound(Step(st, toks[0]).value, toks[1..]);
      assert toks == [toks[0]] + toks[1..];
    }
  }

  // ----- completeness: the machine rebuilds every derivation tree -----

  lemma {:induction false} RunAppend(st: PState, a: seq<Tok>, b: seq<Tok>)
    requires Run(st, a).ok
    ensures Run(st, a + b) == Run(Run(st, a).state, b)
    decreases a
  {
    if a == [] {
      assert a + b == b;
    } else {
      assert (a + b)[1..] == a[1..] + b;
      RunAppend(Step(st, a[0]).value, a[1..], b);
    }
  }

  lemma {:induction false} RunWords(st: PState, tokens: seq<string>)
    requires tokens != []
    ensures Run(st, Words(tokens)) ==
            Outcome(true, PState(st.outer, Frame(st.top.done, st.top.tokens + tokens), NORMAL))
    decreases tokens
  {
    var tail := tokens[1..];
    var next := Step(st, Word(tokens[0])).value;
    assert Words(tokens)[1..] == Words(tail);
    assert Run(st, Words(tokens)) == Run(next, Words(tail));
    if tail == [] {
      assert tokens == [tokens[0]];
    } else {
      RunWords(next, tail);
      assert next.top.tokens + tail == st.top.tokens + tokens;
    }
  }

  /** The machine after it has read the statements `stmts` completely. */
  function After(st: PState, stmts: seq<Stmt>): PState
    requires stmts != []
  {
    var kind := if stmts[|stmts| - 1].Simple? then STATEMENT_END else END_BLOCK;
    PState(st.outer, Frame(st.top.done + stmts, []), kind)
  }

  lemma {:induction false} RunStmt(st: PState, s: Stmt)
    requires st.top.tokens == [] && WellFormedStmt(s)
    ensures Run(st, YieldStmt(s)) == Outcome(true, After(st, [s]))
    decreases s, 0
  {
    var words := Words(s.tokens);
    var begun := PState(st.outer, Frame(st.top.done, s.tokens), NORMAL);
    RunWords(st, s.tokens);
    assert st.top.tokens + s.tokens == s.tokens;
    match s
    case Simple(tokens) =>
      RunAppend(st, words, [Semi]);
    case Block(tokens, body) =>
      RunAppend(st, words, [Open]);
      var inside := PState(st.outer + [begun.top], Frame([], []), START_BLOCK);
      assert Run(begun, [Open]) == Outcome(true, inside);
      RunAppend(st, words + [Open], Yield(body));
      RunStmts(inside, body);
      RunAppend(st, words + [Open] + Yield(body), [Close]);
      var closing := After(inside, body);
      assert closing.top.done == body;
      assert closing.outer[..|st.outer|] == st.outer;
      assert Run(closing, [Close]) == Outcome(true, After(st, [s]));
  }

  lemma {:induction false} RunStmts(st: PState, stmts: seq<Stmt>)
    requires st.top.tokens == [] && WellFormed(stmts) && stmts != []
    ensures Run(st, Yield(stmts)) == Outcome(true, After(st, stmts))
    decreases stmts, 1
  {
    var s, tail := stmts[0], stmts[1..];
    RunStmt(st, s);
    RunAppend(st, YieldStmt(s), Yield(tail));
    if tail == [] {
      assert stmts == [s];
    } else {
      RunStmts(After(st, [s]), tail);
      assert After(st, [s]).top.done + tail == st.top.done + stmts;
    }
  }

  // ----- what the caller's own statements contribute -----

  function BasedFrame(init: seq<Stmt>, f: Frame): Frame {
    Frame(init + f.done, f.tokens)
  }

  /** `st` with `init` in front of the statements of its outermost block. */
  function Based(init: seq<Stmt>, st: PState): PState {
    if st.outer == [] then st.(top := BasedFrame(init, st.top))
    else st.(outer := st.outer[0 := BasedFrame(init, st.outer[0])])
  }

  lemma StepBased(init: seq<Stmt>, st: PState, tok: Tok)
    ensures Step(Based(init, st), tok) ==
            match Step(st, tok) case None => None case Some(next) => Some(Based(init, next))
  {
    if Step(st, tok).Some? {
      var f := st.top;
      var c, d := Step(Based(init, st), tok).value, Based(init, Step(st, tok).value);
      match tok
      case Word(t) =>
      case Semi =>
        assert (init + f.done) + [Simple(f.tokens)] == init + (f.done + [Simple(f.tokens)]);
      case Open =>
        assert c.outer == d.outer;
      case Close =>
        var g := st.outer[|st.outer| - 1];
        assert (init + g.done) + [Block(g.tokens, f.done)] == init + (g.done + [Block(g.tokens, f.done)]);
        assert c.outer == d.outer;
    }
  }

  lemma {:induction false} RunBased(init: seq<Stmt>, st: PState, toks: seq<Tok>)
    ensures Run(Based(init, st), toks) == Outcome(Run(st, toks).ok, Based(init, Run(st, toks).state))
    decreases toks
  {
    if toks != [] {
      StepBased(init, st, toks[0]);
      if Step(st, toks[0]).Some? {
        RunBased(init, Step(st, toks[0]).value, toks[1..]);
      }
    }
  }

  lemma StartBased(init: seq<Stmt>)
    ensures Start(init) == Based(init, Start([]))
  {
    assert init + [] == init;
  }

  // ----- the equivalence -----

  /** The machine rebuilds every derivation tree exactly, behind the caller's own statements. */
  lemma Complete(init: seq<Stmt>, toks: seq<Tok>, tree: seq<Stmt>)
    requires Derives(toks, tree)
    ensures Run(Start(init), toks).ok && Run(Start(init), toks).state.AtEnd()
    ensures Rebuild(Run(Start(init), toks).state) == init + tree
  {
    RunStmts(Start(init), tree);
    assert init + tree + [] == init + tree;
  }

  /** An accepted token sequence derives from the grammar, by the very tree that was built. */
  lemma SoundFor(init: seq<Stmt>, toks: seq<Tok>)
    requires Run(Start(init), toks).ok && Run(Start(init), toks).state.AtEnd()
    ensures exists tree ::
              Derives(toks, tree) && Rebuild(Run(Start(init), toks).state) == init + tree
  {
    StartBased(init);
    RunBased(init, Start([]), toks);
    RunIsSound(Start([]), toks);
    var st := Run(Start([]), toks).state;
    var tree := st.top.done;
    assert Words([]) == [] && Yield([]) == [];
    assert Consumed(st) == Yield(tree);
    assert Consumed(Start([])) == [];
    assert Derives(toks, tree);
    assert Rebuild(Based(init, st)) == init + tree + [];
  }

  /** A token sequence has at most one derivation tree. */
  lemma DerivationIsUnique(toks: seq<Tok>, a: seq<Stmt>, b: seq<Stmt>)
    requires Derives(toks, a) && Derives(toks, b)
    ensures a == b
  {
    Complete([], toks, a);
    Complete([], toks, b);
    assert [] + a == a && [] + b == b;
  }

  /** Main result: `Parse` answers true exactly when the text lexes to its end and its tokens derive
      from the grammar; the configuration then holds the caller's statements followed by the one
      derivation tree. */
  lemma ParseIsGrammar(init: seq<Stmt>, text: string)
    ensures ParseText(init, text).ok <==>
            Lex(text).clean && exists tree :: Derives(Lex(text).toks, tree)
    ensures forall tree :: Lex(text).clean && Derives(Lex(text).toks, tree) ==>
              ParseText(init, text) == ParseResult(true, init + tree)
  {
    var toks := Lex(text).toks;
    forall tree | Derives(toks, tree)
      ensures Run(Start(init), toks).ok && Run(Start(init), toks).state.AtEnd()
      ensures Rebuild(Run(Start(init), toks).state) == init + tree
    {
      Complete(init, toks, tree);
    }
    if ParseText(init, text).ok {
      SoundFor(init, toks);
    }
  }
}
