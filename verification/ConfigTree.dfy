/** Configuration trees as values, their printed form, and the token sequence they derive.

    A configuration is the sequence of its statements; a statement is a list of tokens that either
    ends there or carries a child block. */
module ConfigTree {

  datatype Stmt =
    | Simple(tokens: seq<string>)
    | Block(tokens: seq<string>, body: seq<Stmt>)

  // ----- printing -----

  function Indent(depth: int): string
    decreases if depth > 0 then depth else 0
  {
    if depth <= 0 then "" else "  " + Indent(depth - 1)
  }

  /** The tokens separated by single spaces. */
  function Joined(tokens: seq<string>): string {
    if tokens == [] then ""
    else if |tokens| == 1 then tokens[0]
    else tokens[0] + " " + Joined(tokens[1..])
  }

  function PrintStmt(s: Stmt, depth: int): string
    decreases s, 0
  {
    match s
    case Simple(tokens) => Indent(depth) + Joined(tokens) + ";\n"
    case Block(tokens, body) =>
      Indent(depth) + Joined(tokens) + " {\n" + Print(body, depth + 1) + Indent(depth) + "}\n"
  }

  function Print(stmts: seq<Stmt>, depth: int): string
    decreases stmts, 1
  {
    if stmts == [] then "" else PrintStmt(stmts[0], depth) + Print(stmts[1..], depth)
  }

  lemma {:induction false} PrintSnoc(stmts: seq<Stmt>, s: Stmt, depth: int)
    ensures Print(stmts + [s], depth) == Print(stmts, depth) + PrintStmt(s, depth)
  {
    if stmts == [] {
      assert [s][1..] == [];
    } else {
      assert (stmts + [s])[1..] == stmts[1..] + [s];
      PrintSnoc(stmts[1..], s, depth);
    }
  }

  lemma {:induction false} JoinedSnoc(tokens: seq<string>, t: string)
    requires tokens != []
    ensures Joined(tokens + [t]) == Joined(tokens) + " " + t
  {
    if |tokens| == 1 {
      assert (tokens + [t])[1..] == [t];
    } else {
      assert (tokens + [t])[1..] == tokens[1..] + [t];
      JoinedSnoc(tokens[1..], t);
    }
  }

  lemma {:induction false} IndentIs(depth: int)
    ensures Indent(depth) == seq(if depth <= 0 then 0 else 2 * depth, _ => ' ')
    decreases if depth > 0 then depth else 0
  {
    if depth > 0 {
      IndentIs(depth - 1);
      assert "  " == [' ', ' '];
    }
  }

  /** Each statement is printed on a line of its own with its tokens separated by single spaces, and the
      statements of a block on the lines below, between braces; the line of a statement and that of a
      closing brace begin with two spaces for each level of nesting. */
  lemma PrintedLines(s: Stmt, depth: nat)
    requires s.tokens != []
    ensures var spaces := seq(2 * depth, _ => ' ');
            PrintStmt(s, depth) ==
            match s
            case Simple(tokens) => spaces + Joined(tokens) + ";\n"
            case Block(tokens, body) =>
              spaces + Joined(tokens) + " {\n" + Print(body, depth + 1) + spaces + "}\n"
    ensures Joined(s.tokens) ==
            if |s.tokens| == 1 then s.tokens[0] else s.tokens[0] + " " + Joined(s.tokens[1..])
  {
    IndentIs(depth);
    assert seq(if depth <= 0 then 0 else 2 * depth, _ => ' ') == seq(2 * depth, _ => ' ');
  }

  // ----- the grammar: config ::= stmt+ ; stmt ::= WORD+ (';' | '{' stmt+ '}') -----

  datatype Tok = Word(text: string) | Open | Close | Semi

  function Words(tokens: seq<string>): (w: seq<Tok>)
    ensures |w| == |tokens| && forall i :: 0 <= i < |w| ==> w[i] == Word(tokens[i])
  {
    seq(|tokens|, i requires 0 <= i < |tokens| => Word(tokens[i]))
  }

  /** The token sequence that a statement derives. */
  function YieldStmt(s: Stmt): seq<Tok>
    decreases s, 0
  {
    match s
    case Simple(tokens) => Words(tokens) + [Semi]
    case Block(tokens, body) => Words(tokens) + [Open] + Yield(body) + [Close]
  }

  function Yield(stmts: seq<Stmt>): seq<Tok>
    decreases stmts, 1
  {
    if stmts == [] then [] else YieldStmt(stmts[0]) + Yield(stmts[1..])
  }

  lemma {:induction false} YieldSnoc(stmts: seq<Stmt>, s: Stmt)
    ensures Yield(stmts + [s]) == Yield(stmts) + YieldStmt(s)
  {
    if stmts == [] {
      assert [s][1..] == [];
    } else {
      assert (stmts + [s])[1..] == stmts[1..] + [s];
      YieldSnoc(stmts[1..], s);
    }
  }

  /** A derivation tree of the grammar: every statement has a token, every block a statement. */
  ghost predicate WellFormedStmt(s: Stmt)
    decreases s, 0
  {
    s.tokens != [] && (s.Block? ==> s.body != [] && WellFormed(s.body))
  }

  ghost predicate WellFormed(stmts: seq<Stmt>)
    decreases stmts, 1
  {
    forall i :: 0 <= i < |stmts| ==> WellFormedStmt(stmts[i])
  }

  /** `toks` derives from the start symbol of the grammar by the derivation tree `stmts`. */
  ghost predicate Derives(toks: seq<Tok>, stmts: seq<Stmt>) {
    stmts != [] && WellFormed(stmts) && toks == Yield(stmts)
  }
}
