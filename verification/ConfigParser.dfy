/** The parser on linked objects: a stack of pointers to open blocks, and the proof that after every
    token the objects are exactly what the stack machine says. */
module ConfigParser {
  import opened ConfigTree
  import opened Lexer
  import opened TokenStream
  import opened ParserMachine
  import opened ConfigHeap

  /** `c` holds the finished statements of `f`, and one more that is under construction when `f` has
      tokens. */
  ghost predicate Level(c: NginxConfig, f: Frame, ss: set<NginxConfigStatement>)
    reads c, ss
  {
    Holds(c, f.done, ss) && |c.statements_| == |f.done| + if f.tokens == [] then 0 else 1
  }

  /** `s` is the statement under construction in `c`. */
  ghost predicate UnderConstruction(s: NginxConfigStatement, c: NginxConfig, f: Frame)
    reads s`tokens_, s`owner, s`index, c`statements_
  {
    && |f.done| < |c.statements_| && c.statements_[|f.done|] == s
    && s.tokens_ == f.tokens && f.tokens != []
    && s.owner == c && s.index == |f.done|
  }

  /** The blocks beneath the innermost one. Each is unfinished and represents its frame, and the next
      one up is the child block of the statement under construction in it. */
  ghost predicate Lower(lower: seq<NginxConfig>, top: NginxConfig, begun: seq<NginxConfigStatement>,
                        outer: seq<Frame>, cs: set<NginxConfig>, ss: set<NginxConfigStatement>)
    reads lower, begun, ss, top`owner
  {
    && |lower| == |begun| == |outer|
    && forall i :: 0 <= i < |lower| ==>
         && lower[i] !in cs && lower[i].depth == i && begun[i] !in ss
         && Level(lower[i], outer[i], ss)
         && UnderConstruction(begun[i], lower[i], outer[i])
         && begun[i].child_block_ == Above(lower, top, i) && Above(lower, top, i).owner == begun[i]
  }

  /** The block on top of the one at position `i`. */
  ghost function Above(lower: seq<NginxConfig>, top: NginxConfig, i: nat): NginxConfig {
    if i + 1 < |lower| then lower[i + 1] else top
  }

  /** The invariant of parsing: the finished objects, the enclosing blocks `lower`, the innermost block
      `top`, and the statement `open` under construction in it, if there is one. */
  ghost predicate Spine(lower: seq<NginxConfig>, top: NginxConfig, begun: seq<NginxConfigStatement>,
                        open: NginxConfigStatement?, st: PState,
                        cs: set<NginxConfig>, ss: set<NginxConfigStatement>)
    reads lower, top, begun, open, cs, ss
  {
    && st.Ok() && Closed(cs, ss)
    && Lower(lower, top, begun, st.outer, cs, ss)
    && top !in cs && top.depth == |lower| && Level(top, st.top, ss)
    && (if st.top.tokens == [] then open == null
        else
          && open != null && open !in ss
          && UnderConstruction(open, top, st.top) && open.child_block_ == null)
  }

  /** The stack entries and the statements under construction are all different objects. */
  lemma Separate(lower: seq<NginxConfig>, top: NginxConfig, begun: seq<NginxConfigStatement>,
                 open: NginxConfigStatement?, st: PState,
                 cs: set<NginxConfig>, ss: set<NginxConfigStatement>)
    requires Spine(lower, top, begun, open, st, cs, ss)
    ensures |lower| == |begun| == |st.outer|
    ensures top !in lower && open !in begun
    ensures forall c :: c in lower ==> c !in cs
    ensures forall s :: s in begun ==> s !in ss
    ensures forall i, j :: 0 <= i < j < |lower| ==> lower[i] != lower[j]
    ensures open != null <==> st.last == NORMAL
    ensures st.last in {START, NORMAL, START_BLOCK, STATEMENT_END, END_BLOCK}
    ensures open == null <==> st.top.tokens == []
    ensures open != null ==> top.statements_ != [] && top.statements_[|top.statements_| - 1] == open
  {
  }

  lemma LowerPush(lower: seq<NginxConfig>, top: NginxConfig, begun: seq<NginxConfigStatement>,
                  open: NginxConfigStatement, f: Frame, outer: seq<Frame>, c: NginxConfig,
                  cs: set<NginxConfig>, ss: set<NginxConfigStatement>)
    requires Lower(lower, top, begun, outer, cs, ss)
    requires top !in cs && top.depth == |lower| && Level(top, f, ss)
    requires open !in ss && UnderConstruction(open, top, f) && open.child_block_ == c && c.owner == open
    ensures Lower(lower + [top], c, begun + [open], outer + [f], cs, ss)
  {
    var l, b, o := lower + [top], begun + [open], outer + [f];
    forall i | 0 <= i < |l|
      ensures && l[i] !in cs && l[i].depth == i && b[i] !in ss
              && Level(l[i], o[i], ss)
              && UnderConstruction(b[i], l[i], o[i])
              && b[i].child_block_ == Above(l, c, i) && Above(l, c, i).owner == b[i]
    {
      if i < |lower| {
        assert l[i] == lower[i] && b[i] == begun[i] && o[i] == outer[i];
        assert Above(l, c, i) == Above(lower, top, i);
      }
    }
  }

  lemma LowerPop(lower: seq<NginxConfig>, parent: NginxConfig, top: NginxConfig,
                 begun: seq<NginxConfigStatement>, s: NginxConfigStatement,
                 outer: seq<Frame>, f: Frame, cs: set<NginxConfig>, ss: set<NginxConfigStatement>)
    requires Lower(lower + [parent], top, begun + [s], outer + [f], cs, ss) && |begun| == |lower|
    ensures Lower(lower, parent, begun, outer, cs, ss)
    ensures parent !in cs && parent.depth == |lower| && parent !in lower && Level(parent, f, ss)
    ensures s !in ss && s !in begun && UnderConstruction(s, parent, f)
    ensures s.child_block_ == top && top.owner == s
  {
    var n := |lower|;
    var l, b, o := lower + [parent], begun + [s], outer + [f];
    assert l[n] == parent && b[n] == s && o[n] == f && Above(l, top, n) == top;
    forall i | 0 <= i < n
      ensures && lower[i] !in cs && lower[i].depth == i && begun[i] !in ss
              && Level(lower[i], outer[i], ss)
              && UnderConstruction(begun[i], lower[i], outer[i])
              && begun[i].child_block_ == Above(lower, parent, i) && Above(lower, parent, i).owner == begun[i]
    {
      assert l[i] == lower[i] && b[i] == begun[i] && o[i] == outer[i];
      assert Above(l, top, i) == Above(lower, parent, i);
    }
  }

  /** More finished objects, none of them on the stack. */
  lemma LowerGrow(lower: seq<NginxConfig>, top: NginxConfig, begun: seq<NginxConfigStatement>, outer: seq<Frame>,
                  cs: set<NginxConfig>, ss: set<NginxConfigStatement>,
                  cs': set<NginxConfig>, ss': set<NginxConfigStatement>)
    requires Lower(lower, top, begun, outer, cs, ss) && cs <= cs' && ss <= ss'
    requires forall c :: c in lower ==> c !in cs'
    requires forall s :: s in begun ==> s !in ss'
    ensures Lower(lower, top, begun, outer, cs', ss')
  {
  }

  ghost function Members<T>(xs: seq<T>): set<T> {
    set x | x in xs
  }

  lemma MembersSnoc<T>(xs: seq<T>)
    ensures xs != [] ==> Members(xs) == Members(xs[..|xs| - 1]) + {xs[|xs| - 1]}
    ensures xs == [] ==> Members(xs) == {}
  {
    if xs != [] {
      assert xs == xs[..|xs| - 1] + [xs[|xs| - 1]];
    }
  }

  /** A configuration all of whose statements are finished is finished. */
  ghost method CloseConfig(c: NginxConfig, done: seq<Stmt>, cs: set<NginxConfig>, ss: set<NginxConfigStatement>)
    requires Closed(cs, ss) && c !in cs && Holds(c, done, ss) && |c.statements_| == |done|
    modifies c`value
    ensures Closed(cs + {c}, ss) && c.value == done
  {
    c.value := done;
  }

  ghost method CloseTop(top: NginxConfig, st: PState, cs: set<NginxConfig>, ss: set<NginxConfigStatement>)
    requires Closed(cs, ss) && top !in cs && Level(top, st.top, ss) && st.top.tokens == []
    modifies top`value
    ensures Closed(cs + {top}, ss) && top.value == st.top.done
  {
    CloseConfig(top, st.top.done, cs, ss);
  }

  /** A statement without a child block, or with a finished one of its own, is finished. */
  ghost method CloseStatement(s: NginxConfigStatement, value: Stmt,
                              cs: set<NginxConfig>, ss: set<NginxConfigStatement>)
    requires Closed(cs, ss) && s !in ss
    requires if s.child_block_ == null then value == Simple(s.tokens_)
             else
               && s.child_block_ in cs && s.child_block_.owner == s
               && value == Block(s.tokens_, s.child_block_.value)
    modifies s`value
    ensures Closed(cs, ss + {s}) && s.value == value
  {
    s.value := value;
  }

  /** Once finished, the statement under construction counts among the finished ones. */
  lemma LevelDone(c: NginxConfig, f: Frame, s: NginxConfigStatement, ss: set<NginxConfigStatement>)
    requires Level(c, f, ss) && UnderConstruction(s, c, f)
    ensures Level(c, Frame(f.done + [s.value], []), ss + {s})
  {
  }

  lemma WordStep(st: PState, token: string)
    requires st.Ok()
    ensures Step(st, Word(token)).Some?
    ensures var next := Step(st, Word(token)).value;
            && next.Ok() && next.outer == st.outer
            && next.top == Frame(st.top.done, st.top.tokens + [token])
  {
  }

  lemma OpenStep(st: PState)
    requires st.Ok() && st.top.tokens != []
    ensures Step(st, Open).Some?
    ensures var next := Step(st, Open).value;
            next.Ok() && next.outer == st.outer + [st.top] && next.top == Frame([], [])
  {
  }

  /** What the invariant says, part by part. */
  lemma SpineIs(lower: seq<NginxConfig>, top: NginxConfig, begun: seq<NginxConfigStatement>,
                open: NginxConfigStatement?, st: PState,
                cs: set<NginxConfig>, ss: set<NginxConfigStatement>)
    ensures Spine(lower, top, begun, open, st, cs, ss) <==>
            && st.Ok() && Closed(cs, ss)
            && Lower(lower, top, begun, st.outer, cs, ss)
            && top !in cs && top.depth == |lower| && Level(top, st.top, ss)
            && (if st.top.tokens == [] then open == null
                else
                  && open != null && open !in ss
                  && UnderConstruction(open, top, st.top) && open.child_block_ == null)
  {
  }

  /** A new statement behind the finished ones of a block is the one under construction. */
  lemma LevelBegun(c: NginxConfig, done: seq<Stmt>, s: NginxConfigStatement, token: string,
                   before: seq<NginxConfigStatement>, ss: set<NginxConfigStatement>)
    requires |before| == |done| && c.statements_ == before + [s]
    requires forall i :: 0 <= i < |done| ==>
               && before[i] in ss && before[i].value == done[i] && before[i].owner == c && before[i].index == i
    requires s.tokens_ == [token] && s.owner == c && s.index == |done|
    ensures Level(c, Frame(done, [] + [token]), ss) && UnderConstruction(s, c, Frame(done, [] + [token]))
  {
  }

  lemma LevelIs(c: NginxConfig, f: Frame, ss: set<NginxConfigStatement>)
    requires Level(c, f, ss) && f.tokens == []
    ensures |c.statements_| == |f.done|
    ensures forall i :: 0 <= i < |f.done| ==>
              && c.statements_[i] in ss && c.statements_[i].value == f.done[i]
              && c.statements_[i].owner == c && c.statements_[i].index == i
  {
  }

  /** A first token begins a statement. */
  method OnFirstNormal(token: string, top: NginxConfig,
                       ghost lower: seq<NginxConfig>, ghost begun: seq<NginxConfigStatement>, ghost st: PState,
                       ghost cs: set<NginxConfig>, ghost ss: set<NginxConfigStatement>)
    returns (s: NginxConfigStatement)
    requires Spine(lower, top, begun, null, st, cs, ss)
    modifies top`statements_
    ensures Spine(lower, top, begun, s, Step(st, Word(token)).value, cs, ss) && fresh(s)
  {
    hide *;
    Separate(lower, top, begun, null, st, cs, ss);
    SpineIs(lower, top, begun, null, st, cs, ss);
    LevelIs(top, st.top, ss);
    WordStep(st, token);
    ghost var before := top.statements_;
    s := new NginxConfigStatement();
    s.owner := top;
    s.index := |top.statements_|;
    top.statements_ := top.statements_ + [s];
    s.tokens_ := s.tokens_ + [token];
    LevelBegun(top, st.top.done, s, token, before, ss);
    SpineIs(lower, top, begun, s, Step(st, Word(token)).value, cs, ss);
  }

  /** A further token joins the statement under construction. */
  method OnFurtherNormal(token: string, s: NginxConfigStatement,
                         ghost lower: seq<NginxConfig>, ghost top: NginxConfig,
                         ghost begun: seq<NginxConfigStatement>, ghost st: PState,
                         ghost cs: set<NginxConfig>, ghost ss: set<NginxConfigStatement>)
    requires Spine(lower, top, begun, s, st, cs, ss)
    modifies s`tokens_
    ensures Spine(lower, top, begun, s, Step(st, Word(token)).value, cs, ss)
  {
    Separate(lower, top, begun, s, st, cs, ss);
    hide Lower;
    s.tokens_ := s.tokens_ + [token];
  }

  /** A ';' finishes the statement under construction. */
  ghost method OnStatementEnd(s: NginxConfigStatement,
                              lower: seq<NginxConfig>, top: NginxConfig, begun: seq<NginxConfigStatement>,
                              st: PState, cs: set<NginxConfig>, ss: set<NginxConfigStatement>)
    requires Spine(lower, top, begun, s, st, cs, ss)
    modifies s`value
    ensures Spine(lower, top, begun, null, Step(st, Semi).value, cs, ss + {s})
  {
    Separate(lower, top, begun, s, st, cs, ss);
    hide Lower, Closed;
    CloseStatement(s, Simple(s.tokens_), cs, ss);
    LevelDone(top, st.top, s, ss);
    LowerGrow(lower, top, begun, st.outer, cs, ss, cs, ss + {s});
  }

  /** A '{' gives the statement under construction a child block, which it did not have before. */
  method OnStartBlock(s: NginxConfigStatement,
                      ghost lower: seq<NginxConfig>, ghost top: NginxConfig,
                      ghost begun: seq<NginxConfigStatement>, ghost st: PState,
                      ghost cs: set<NginxConfig>, ghost ss: set<NginxConfigStatement>)
    returns (c: NginxConfig)
    requires Spine(lower, top, begun, s, st, cs, ss)
    modifies s`child_block_
    ensures old(s.child_block_) == null && fresh(c)
    ensures Spine(lower + [top], c, begun + [s], null, Step(st, Open).value, cs, ss)
  {
    hide *;
    Separate(lower, top, begun, s, st, cs, ss);
    SpineIs(lower, top, begun, s, st, cs, ss);
    OpenStep(st);
    c := new NginxConfig();
    c.owner, c.depth := s, |lower| + 1;
    s.child_block_ := c;
    LowerPush(lower, top, begun, s, st.top, st.outer, c, cs, ss);
    EmptyLevel(c, ss);
    SpineIs(lower + [top], c, begun + [s], null, Step(st, Open).value, cs, ss);
  }

  lemma EmptyLevel(c: NginxConfig, ss: set<NginxConfigStatement>)
    requires c.statements_ == []
    ensures Level(c, Frame([], []), ss)
  {
  }

  lemma SpineReady(lower: seq<NginxConfig>, top: NginxConfig, begun: seq<NginxConfigStatement>,
                   st: PState, cs: set<NginxConfig>, ss: set<NginxConfigStatement>)
    requires st.Ok() && Closed(cs, ss) && Lower(lower, top, begun, st.outer, cs, ss)
    requires top !in cs && top.depth == |lower| && Level(top, st.top, ss) && st.top.tokens == []
    ensures Spine(lower, top, begun, null, st, cs, ss)
  {
  }

  ghost method CloseBlock(lower: seq<NginxConfig>, parent: NginxConfig, top: NginxConfig,
                          begun: seq<NginxConfigStatement>, s: NginxConfigStatement,
                          outer: seq<Frame>, f: Frame, st: PState,
                          cs: set<NginxConfig>, ss: set<NginxConfigStatement>)
    requires Closed(cs, ss) && Lower(lower, parent, begun, outer, cs, ss)
    requires Level(parent, f, ss) && UnderConstruction(s, parent, f)
    requires s !in ss && s !in begun && s.child_block_ == top && top.owner == s
    requires top !in cs && top !in lower && top != parent && Level(top, st.top, ss) && st.top.tokens == []
    requires forall c :: c in lower ==> c !in cs
    requires forall b :: b in begun ==> b !in ss
    modifies top`value, s`value
    ensures Closed(cs + {top}, ss + {s}) && Lower(lower, parent, begun, outer, cs + {top}, ss + {s})
    ensures Level(parent, Frame(f.done + [Block(f.tokens, st.top.done)], []), ss + {s})
  {
    hide Lower, Closed, Level, Holds;
    CloseTop(top, st, cs, ss);
    CloseStatement(s, Block(s.tokens_, top.value), cs + {top}, ss);
    LevelDone(parent, f, s, ss);
    LowerGrow(lower, parent, begun, outer, cs, ss, cs + {top}, ss + {s});
  }

  lemma EndBlockReady(lower: seq<NginxConfig>, top: NginxConfig, begun: seq<NginxConfigStatement>,
                      parent: NginxConfig, s: NginxConfigStatement, outer: seq<Frame>, f: Frame,
                      st: PState, cs: set<NginxConfig>, ss: set<NginxConfigStatement>)
    requires Spine(lower + [parent], top, begun + [s], null, st, cs, ss) && st.outer == outer + [f]
    ensures Closed(cs, ss) && Lower(lower, parent, begun, outer, cs, ss)
    ensures Level(parent, f, ss) && UnderConstruction(s, parent, f)
    ensures s !in ss && s !in begun && s.child_block_ == top && top.owner == s
    ensures top !in cs && top !in lower && top != parent && Level(top, st.top, ss) && st.top.tokens == []
    ensures parent !in cs && parent.depth == |lower|
    ensures forall c :: c in lower ==> c !in cs
    ensures forall b :: b in begun ==> b !in ss
    ensures Closing(st).Ok() && Closing(st).outer == outer
    ensures Closing(st).top == Frame(f.done + [Block(f.tokens, st.top.done)], [])
  {
    Separate(lower + [parent], top, begun + [s], null, st, cs, ss);
    LowerPop(lower, parent, top, begun, s, outer, f, cs, ss);
    assert parent in lower + [parent] && s in begun + [s];
    assert forall c :: c in lower ==> c in lower + [parent];
    assert forall b :: b in begun ==> b in begun + [s];
    assert st.outer[..|outer|] == outer;
  }

  /** A '}' finishes the innermost block and the statement that it belongs to. */
  ghost method OnEndBlock(lower: seq<NginxConfig>, top: NginxConfig, begun: seq<NginxConfigStatement>,
                          parent: NginxConfig, s: NginxConfigStatement, outer: seq<Frame>, f: Frame,
                          st: PState, cs: set<NginxConfig>, ss: set<NginxConfigStatement>)
    requires Spine(lower + [parent], top, begun + [s], null, st, cs, ss) && st.outer == outer + [f]
    modifies top`value, s`value
    ensures Spine(lower, parent, begun, null, Closing(st), cs + {top}, ss + {s})
  {
    hide *;
    EndBlockReady(lower, top, begun, parent, s, outer, f, st, cs, ss);
    CloseBlock(lower, parent, top, begun, s, outer, f, st, cs, ss);
    SpineReady(lower, parent, begun, Closing(st), cs + {top}, ss + {s});
  }

  /** The open blocks are finished as they stand, innermost first. */
  ghost method FinishBlocks(lower: seq<NginxConfig>, top: NginxConfig, begun: seq<NginxConfigStatement>,
                            st: PState, cs: set<NginxConfig>, ss: set<NginxConfigStatement>)
    requires Spine(lower, top, begun, null, st, cs, ss)
    modifies lower`value, top`value, begun`value
    ensures Closed(cs + Members(lower) + {top}, ss + Members(begun))
    ensures (if lower == [] then top else lower[0]).value == Rebuild(st)
    decreases |lower|
  {
    hide *;
    Separate(lower, top, begun, null, st, cs, ss);
    MembersSnoc(lower);
    MembersSnoc(begun);
    if lower == [] {
      CloseRoot(top, begun, st, cs, ss);
      assert cs + Members(lower) + {top} == cs + {top} && ss + Members(begun) == ss;
    } else {
      var n := |lower| - 1;
      var l, parent, b, s, o, f := lower[..n], lower[n], begun[..n], begun[n], st.outer[..n], st.outer[n];
      assert lower == l + [parent] && begun == b + [s] && st.outer == o + [f];
      OnEndBlock(l, top, b, parent, s, o, f, st, cs, ss);
      RebuildClosing(st);
      FinishBlocks(l, parent, b, Closing(st), cs + {top}, ss + {s});
      assert cs + {top} + Members(l) + {parent} == cs + Members(lower) + {top};
      assert ss + {s} + Members(b) == ss + Members(begun);
    }
  }

  ghost method CloseRoot(top: NginxConfig, begun: seq<NginxConfigStatement>,
                         st: PState, cs: set<NginxConfig>, ss: set<NginxConfigStatement>)
    requires Spine([], top, begun, null, st, cs, ss)
    modifies top`value
    ensures Closed(cs + {top}, ss) && top.value == Rebuild(st)
  {
    CloseTop(top, st, cs, ss);
    assert Rebuild(st) == Content(st.top) == st.top.done;
  }

  /** When parsing stops, the unfinished statement and blocks are finished as they stand; the caller's
      configuration then represents the tree of the stack machine. */
  ghost method FinishAll(lower: seq<NginxConfig>, top: NginxConfig, begun: seq<NginxConfigStatement>,
                         open: NginxConfigStatement?, st: PState,
                         cs: set<NginxConfig>, ss: set<NginxConfigStatement>)
    returns (ss': set<NginxConfigStatement>)
    requires Spine(lower, top, begun, open, st, cs, ss)
    modifies lower`value, top`value, begun`value, open
    ensures Closed(cs + Members(lower) + {top}, ss')
    ensures ss' == ss + Members(begun) + if open == null then {} else {open}
    ensures (if lower == [] then top else lower[0]).value == Rebuild(st)
  {
    hide *;
    Separate(lower, top, begun, open, st, cs, ss);
    if open != null {
      StepShape(st);
      OnStatementEnd(open, lower, top, begun, st, cs, ss);
      RebuildSemi(st);
      FinishBlocks(lower, top, begun, Step(st, Semi).value, cs, ss + {open});
      ss' := ss + {open} + Members(begun);
    } else {
      FinishBlocks(lower, top, begun, st, cs, ss);
      ss' := ss + Members(begun);
    }
  }

  /** The token that a lexer call delivers to the parser. */
  ghost function Delivered(kind: TokenType, token: string): Tok {
    match kind
    case NORMAL => Word(token)
    case START_BLOCK => Open
    case END_BLOCK => Close
    case _ => Semi
  }

  lemma DeliveredIs(token: string)
    ensures Delivered(NORMAL, token) == Word(token) && Delivered(STATEMENT_END, token) == Semi
    ensures Delivered(START_BLOCK, token) == Open && Delivered(END_BLOCK, token) == Close
  {
  }

  /** The objects that parsing works on are the caller's configuration and those it has made. */
  ghost predicate Ours(made: set<object>, stack: seq<NginxConfig>, begun: seq<NginxConfigStatement>,
                       open: NginxConfigStatement?, config: NginxConfig) {
    && (forall i :: 0 <= i < |stack| ==> stack[i] == config || stack[i] in made)
    && (forall i :: 0 <= i < |begun| ==> begun[i] in made)
    && (open == null || open in made)
  }

  lemma OursIs(made: set<object>, stack: seq<NginxConfig>, begun: seq<NginxConfigStatement>,
               open: NginxConfigStatement?, config: NginxConfig)
    requires Ours(made, stack, begun, open, config)
    ensures forall i :: 0 <= i < |stack| ==> stack[i] == config || stack[i] in made
    ensures forall i :: 0 <= i < |begun| ==> begun[i] in made
    ensures open == null || open in made
  {
  }

  lemma OursFirst(made: set<object>, stack: seq<NginxConfig>, begun: seq<NginxConfigStatement>,
                  s: NginxConfigStatement, config: NginxConfig)
    requires Ours(made, stack, begun, null, config)
    ensures Ours(made + {s}, stack, begun, s, config)
  {
  }

  lemma OursOpen(made: set<object>, stack: seq<NginxConfig>, begun: seq<NginxConfigStatement>,
                 s: NginxConfigStatement, config: NginxConfig, c: NginxConfig)
    requires Ours(made, stack, begun, s, config)
    ensures Ours(made + {c}, stack + [c], begun + [s], null, config)
  {
  }

  lemma OursLess(made: set<object>, stack: seq<NginxConfig>, begun: seq<NginxConfigStatement>,
                 open: NginxConfigStatement?, config: NginxConfig)
    requires Ours(made, stack, begun, open, config)
    ensures Ours(made, stack, begun, null, config)
    ensures stack != [] && begun != [] ==>
              Ours(made, stack[..|stack| - 1], begun[..|begun| - 1], null, config)
  {
  }

  /** One token other than a comment or the end. When it is rejected nothing has changed. */
  method OnToken(kind: TokenType, token: string, last: TokenType, startBlock: int, stack: seq<NginxConfig>,
                 ghost lower: seq<NginxConfig>, ghost begun: seq<NginxConfigStatement>,
                 ghost open: NginxConfigStatement?, ghost st: PState,
                 ghost cs: set<NginxConfig>, ghost ss: set<NginxConfigStatement>, ghost made: set<object>)
    returns (accepted: bool, stack': seq<NginxConfig>,
             ghost lower': seq<NginxConfig>, ghost begun': seq<NginxConfigStatement>,
             ghost open': NginxConfigStatement?, ghost cs': set<NginxConfig>, ghost ss': set<NginxConfigStatement>,
             ghost made': set<object>)
    requires kind in {NORMAL, STATEMENT_END, START_BLOCK, END_BLOCK}
    requires stack != [] && stack == lower + [stack[|stack| - 1]]
    requires Spine(lower, stack[|stack| - 1], begun, open, st, cs, ss)
    requires last == st.last && startBlock == |st.outer|
    requires Ours(made, stack, begun, open, stack[0])
    modifies stack`statements_, stack`value, begun, open
    ensures accepted <==> Step(st, Delivered(kind, token)).Some?
    ensures stack' != [] && stack' == lower' + [stack'[|stack'| - 1]] && stack'[0] == stack[0]
    ensures Spine(lower', stack'[|stack'| - 1], begun', open',
                  if accepted then Step(st, Delivered(kind, token)).value else st, cs', ss')
    ensures Ours(made', stack', begun', open', stack[0]) && made <= made' && fresh(made' - made)
    ensures cs <= cs' <= cs + made' && ss <= ss' <= ss + made'
  {
    hide *;
    var top := stack[|stack| - 1];
    Separate(lower, top, begun, open, st, cs, ss);
    StepShape(st);
    DeliveredIs(token);
    OursIs(made, stack, begun, open, stack[0]);
    accepted, stack', lower', begun', open' := false, stack, lower, begun, open;
    cs', ss', made' := cs, ss, made;
    if kind == NORMAL {
      if last == START || last == STATEMENT_END || last == START_BLOCK || last == END_BLOCK || last == NORMAL {
        if last != NORMAL {
          open' := OnFirstNormal(token, top, lower, begun, st, cs, ss);
          OursFirst(made, stack, begun, open', stack[0]);
          made' := made + {open'};
        } else {
          OnFurtherNormal(token, top.statements_[|top.statements_| - 1], lower, top, begun, st, cs, ss);
        }
      } else {
        return;
      }
    } else if kind == STATEMENT_END {
      if last != NORMAL {
        return;
      }
      OnStatementEnd(open, lower, top, begun, st, cs, ss);
      open', ss' := null, ss + {open};
      OursLess(made, stack, begun, open, stack[0]);
    } else if kind == START_BLOCK {
      if last != NORMAL {
        return;
      }
      var c := OnStartBlock(top.statements_[|top.statements_| - 1], lower, top, begun, st, cs, ss);
      stack' := stack + [c];
      OursOpen(made, stack, begun, open, stack[0], c);
      lower', begun', open', made' := stack, begun + [open], null, made + {c};
    } else {
      if last != STATEMENT_END && last != END_BLOCK {
        return;
      }
      if startBlock - 1 < 0 {
        return;
      }
      ghost var n := |lower| - 1;
      ghost var parent, s := lower[n], begun[n];
      assert lower == lower[..n] + [parent] && begun == begun[..n] + [s] && st.outer == st.outer[..n] + [st.outer[n]];
      OnEndBlock(lower[..n], top, begun[..n], parent, s, st.outer[..n], st.outer[n], st, cs, ss);
      OursLess(made, stack, begun, open, stack[0]);
      assert stack[0] == lower[0];
      lower', begun', cs', ss' := lower[..n], begun[..n], cs + {top}, ss + {s};
      stack' := stack[..|stack| - 1];
    }
    accepted := true;
  }

  lemma OursAtStart(config: NginxConfig)
    ensures Ours({}, [config], [], null, config)
  {
  }

  /** The token loop. It leaves the stack as it is when parsing stops. */
  method ParseTokens(input: InputStream, config: NginxConfig,
                     ghost cs: set<NginxConfig>, ghost ss: set<NginxConfigStatement>)
    returns (ok: bool, ghost lower: seq<NginxConfig>, ghost top: NginxConfig,
             ghost begun: seq<NginxConfigStatement>, ghost open: NginxConfigStatement?, ghost st: PState,
             ghost cs': set<NginxConfig>, ghost ss': set<NginxConfigStatement>,
             ghost made: set<object>, ghost calls: nat)
    requires input.Valid() && Spine([], config, [], null, Start(config.value), cs, ss)
    modifies input, config`statements_, config`value
    ensures Spine(lower, top, begun, open, st, cs', ss')
    ensures config == (if lower == [] then top else lower[0])
    ensures fresh(made) && Ours(made, lower + [top], begun, open, config)
    ensures cs <= cs' <= cs + made && ss <= ss' <= ss + made
    ensures ParseResult(ok, Rebuild(st)) == ParseText(old(config.value), old(input.Rest()))
    ensures calls <= |old(input.Rest())| + 1
  {
    hide *;
    ghost var text, init := input.Rest(), config.value;
    StartShape(init);
    ParseTextIsParseFrom(init, text);
    st, lower, begun, open, cs', ss', made, calls := Start(init), [], [], null, cs, ss, {}, 0;
    OursAtStart(config);
    var stack := [config];
    var last, startBlock := START, 0;
    ok := false;
    while true
      invariant input.Valid() && stack != [] && stack == lower + [stack[|stack| - 1]] && stack[0] == config
      invariant Spine(lower, stack[|stack| - 1], begun, open, st, cs', ss')
      invariant ParseFrom(st, input.Rest()) == ParseText(init, text)
      invariant last == st.last && startBlock == |st.outer|
      invariant calls + LexerCalls(input.Rest()) == LexerCalls(text)
      invariant fresh(made) && Ours(made, stack, begun, open, config)
      invariant cs <= cs' <= cs + made && ss <= ss' <= ss + made
      decreases |input.Rest()|
    {
      ghost var rest := input.Rest();
      NextTokenProgress(rest);
      LexerCallsStep(rest);
      ParseFromStep(st, rest);
      AtEndShape(st);
      StepShape(st);
      var kind, token := ParseToken(input);
      calls := calls + 1;
      DeliveredIs(token);
      if kind == ERROR {
        break;
      }
      if kind == COMMENT {
        continue;
      }
      if kind == START {
        break;
      }
      if kind == EOF {
        if last != STATEMENT_END && last != END_BLOCK {
          break;
        }
        if startBlock != 0 {
          break;
        }
        ok := true;
        break;
      }
      var accepted;
      OursIs(made, stack, begun, open, config);
      accepted, stack, lower, begun, open, cs', ss', made :=
        OnToken(kind, token, last, startBlock, stack, lower, begun, open, st, cs', ss', made);
      if !accepted {
        break;
      }
      st := Step(st, Delivered(kind, token)).value;
      last := kind;
      startBlock := if kind == START_BLOCK then startBlock + 1
                    else if kind == END_BLOCK then startBlock - 1 else startBlock;
    }
    top := stack[|stack| - 1];
    assert (lower != [] ==> stack[0] == lower[0]) && |stack| == |lower| + 1;
  }

  lemma RootReady(config: NginxConfig, cs: set<NginxConfig>, ss: set<NginxConfigStatement>)
    requires Closed(cs, ss) && config in cs && config.owner == null && config.depth == 0
    ensures Spine([], config, [], null, Start(config.value), cs - {config}, ss)
  {
  }

  lemma MembersIn<T>(xs: seq<T>)
    ensures forall x :: x in Members(xs) <==> x in xs
  {
  }

  /** Reading a configuration from a stream, into the caller's configuration. The objects afterwards
      represent exactly what the grammar says the text means, after what they represented before. */
  method Parse(input: InputStream, config: NginxConfig,
               ghost cs: set<NginxConfig>, ghost ss: set<NginxConfigStatement>)
    returns (ok: bool, ghost cs': set<NginxConfig>, ghost ss': set<NginxConfigStatement>, ghost calls: nat)
    requires input.Valid() && Closed(cs, ss) && config in cs && config.owner == null && config.depth == 0
    modifies input, config`statements_, config`value
    ensures Closed(cs', ss') && config in cs' && cs <= cs' && ss <= ss'
    ensures fresh(cs' - cs) && fresh(ss' - ss)
    ensures ParseResult(ok, config.value) == ParseText(old(config.value), old(input.Rest()))
    ensures calls <= |old(input.Rest())| + 1
  {
    hide *;
    ghost var lower, top, begun, open, st, made;
    RootReady(config, cs, ss);
    ok, lower, top, begun, open, st, cs', ss', made, calls := ParseTokens(input, config, cs - {config}, ss);
    OursIs(made, lower + [top], begun, open, config);
    assert (lower + [top])[|lower|] == top && forall i :: 0 <= i < |lower| ==> (lower + [top])[i] == lower[i];
    ss' := FinishAll(lower, top, begun, open, st, cs', ss');
    cs' := cs' + Members(lower) + {top};
    MembersIn(lower);
    MembersIn(begun);
  }
}
