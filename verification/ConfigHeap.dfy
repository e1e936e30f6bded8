/** Configurations as linked objects, what it means that such objects represent a tree, and the
    operations that only read that structure: printing it and extracting the server settings.

    The ghost fields record, for every finished object, the tree value it represents and its place
    in its parent. `Closed` ties them to the real fields by conditions on one object at a time: the
    values make cycles impossible, the places make sharing impossible. */
module ConfigHeap {
  import opened Text
  import opened ConfigTree
  import opened Settings

  /** The loop that indents a line. */
  method AppendIndent(before: string, depth: int) returns (r: string)
    ensures r == before + Indent(depth)
  {
    r := before;
    var i := 0;
    while i < depth
      invariant 0 <= i && (0 <= depth ==> i <= depth)
      invariant r + Indent(depth - i) == before + Indent(depth)
    {
      r := r + "  ";
      i := i + 1;
    }
  }

  /** The loop that joins the tokens of a statement. */
  method AppendTokens(before: string, tokens: seq<string>) returns (r: string)
    ensures r == before + Joined(tokens)
  {
    r := before;
    var i := 0;
    while i < |tokens|
      invariant 0 <= i <= |tokens|
      invariant r == before + Joined(tokens[..i])
    {
      if i != 0 {
        r := r + " ";
        JoinedSnoc(tokens[..i], tokens[i]);
      }
      r := r + tokens[i];
      assert tokens[..i + 1] == tokens[..i] + [tokens[i]];
      i := i + 1;
    }
    assert tokens[..i] == tokens;
  }

  /** What a finished statement says of its value. */
  lemma StatementValue(s: NginxConfigStatement, cs: set<NginxConfig>, ss: set<NginxConfigStatement>)
    requires Closed(cs, ss) && s in ss
    ensures if s.child_block_ == null then s.value == Simple(s.tokens_)
            else s.child_block_ in cs && s.value == Block(s.tokens_, s.child_block_.value)
  {
  }

  lemma PrintIs(s: Stmt, depth: int)
    ensures PrintStmt(s, depth) ==
            match s
            case Simple(tokens) => "" + Indent(depth) + Joined(tokens) + ";" + "\n"
            case Block(tokens, body) =>
              "" + Indent(depth) + Joined(tokens) + " {\n" + Print(body, depth + 1) + Indent(depth) + "}" + "\n"
  {
    hide Indent, Joined, Print;
    assert "" + Indent(depth) == Indent(depth);
    match s
    case Simple(tokens) => Concatenation(Indent(depth) + Joined(tokens), ";", "\n");
    case Block(tokens, body) =>
      Concatenation(Indent(depth) + Joined(tokens) + " {\n" + Print(body, depth + 1) + Indent(depth), "}", "\n");
  }

  class NginxConfigStatement {
    var tokens_: seq<string>
    var child_block_: NginxConfig?
    ghost var value: Stmt
    ghost var owner: NginxConfig?
    ghost var index: nat

    constructor ()
      ensures tokens_ == [] && child_block_ == null
    {
      tokens_, child_block_ := [], null;
      owner := null;
    }

    method ToString(depth: int, ghost cs: set<NginxConfig>, ghost ss: set<NginxConfigStatement>)
      returns (r: string)
      requires Closed(cs, ss) && this in ss
      ensures r == PrintStmt(value, depth)
      decreases value, 0
    {
      StatementValue(this, cs, ss);
      hide *;
      PrintIs(value, depth);
      r := AppendIndent("", depth);
      r := AppendTokens(r, tokens_);
      if child_block_ != null {
        r := r + " {\n";
        var body := child_block_.ToString(depth + 1, cs, ss);
        r := r + body;
        r := AppendIndent(r, depth);
        r := r + "}";
      } else {
        r := r + ";";
      }
      r := r + "\n";
    }
  }

  class NginxConfig {
    var statements_: seq<NginxConfigStatement>
    var port_: int
    var threadCount_: int
    var root_: string
    ghost var value: seq<Stmt>
    ghost var owner: NginxConfigStatement?
    ghost var depth: nat

    constructor ()
      ensures statements_ == [] && value == [] && owner == null && depth == 0
    {
      statements_, value, owner, depth := [], [], null, 0;
    }

    method ToString(depth: int, ghost cs: set<NginxConfig>, ghost ss: set<NginxConfigStatement>)
      returns (r: string)
      requires Closed(cs, ss) && this in cs
      ensures r == Print(value, depth)
      decreases value, 1
    {
      r := "";
      var i := 0;
      while i < |statements_|
        invariant 0 <= i <= |statements_|
        invariant r == Print(value[..i], depth)
      {
        var s := statements_[i].ToString(depth, cs, ss);
        assert value[..i + 1] == value[..i] + [value[i]];
        PrintSnoc(value[..i], value[i], depth);
        r := r + s;
        i := i + 1;
      }
      assert value[..i] == value;
    }

    /** The token lists of the statements, in order. */
    ghost function TokenLists(): seq<seq<string>>
      reads this, statements_
    {
      seq(|statements_|, i requires 0 <= i < |statements_| reads this, statements_ => statements_[i].tokens_)
    }

    method ParseStatements() returns (ok: bool)
      modifies this`port_, this`root_, this`threadCount_
      ensures var g := GatherAll(INITIAL, old(TokenLists()));
              && (ok <==> g.port.Some?)
              && port_ == (if ok then g.port.value else old(port_))
              && root_ == g.root && threadCount_ == g.threads
    {
      var root, foundPort, threads := "", false, DEFAULT_THREADS;
      ghost var lists := TokenLists();
      ghost var g := INITIAL;
      assert lists[..0] == [] && GatherAll(INITIAL, []) == INITIAL;
      hide GatherAll, GatherStatement;
      for k := 0 to |statements_|
        invariant g == GatherAll(INITIAL, lists[..k])
        invariant foundPort == g.port.Some? && root == g.root && threads == g.threads
        invariant port_ == if foundPort then g.port.value else old(port_)
      {
        var tokens := statements_[k].tokens_;
        assert lists[..k + 1] == lists[..k] + [tokens];
        GatherAllSnoc(INITIAL, lists[..k], tokens);
        foundPort, root, threads, g := ScanTokens(tokens, foundPort, root, threads, g);
      }
      assert lists[..|statements_|] == lists;
      threadCount_ := threads;
      root_ := root;
      ok := foundPort;
    }

    /** The inner loop, over the tokens of one statement. */
    method ScanTokens(tokens: seq<string>, foundBefore: bool, rootBefore: string, threadsBefore: int,
                      ghost before: Gathered)
      returns (foundPort: bool, root: string, threads: int, ghost g: Gathered)
      requires foundBefore == before.port.Some? && rootBefore == before.root && threadsBefore == before.threads
      requires foundBefore ==> port_ == before.port.value
      modifies this`port_, this`root_, this`threadCount_
      ensures g == GatherStatement(before, "", tokens)
      ensures foundPort == g.port.Some? && root == g.root && threads == g.threads && (foundBefore ==> foundPort)
      ensures port_ == if foundPort then g.port.value else old(port_)
    {
      hide GatherStatement, Stoi;
      foundPort, root, threads, g := foundBefore, rootBefore, threadsBefore, before;
      var prev := "";
      assert tokens[0..] == tokens;
      for i := 0 to |tokens|
        invariant foundBefore ==> foundPort
        invariant GatherStatement(before, "", tokens) == GatherStatement(g, prev, tokens[i..])
        invariant foundPort == g.port.Some? && root == g.root && threads == g.threads
        invariant port_ == if foundPort then g.port.value else old(port_)
      {
        var token := tokens[i];
        GatherOne(g, prev, tokens, i);
        g := Gather(g, SlotOf(prev, token));
        if prev == "port" && !foundPort {
          match Stoi(token)
          case None => continue;
          case Some(port) =>
            if 0 < port <= MAX_PORT {
              port_ := port;
              foundPort := true;
            } else {
              continue;
            }
        } else if prev == "root" {
          root := token;
          if root == "." {
            root := "";
          }
          root_ := root;
        } else if prev == "threadCount" {
          match Stoi(token)
          case None => continue;
          case Some(n) =>
            threads := ToUnsigned(n);
            if threads > 0 {
              threadCount_ := threads;
            } else {
              threads := DEFAULT_THREADS;
              continue;
            }
        }
        prev := token;
      }
      assert tokens[|tokens|..] == [];
      GatherNothing(g, prev);
    }
  }

  /** The first statements of `c` are finished and represent `done`, each in its own place. */
  ghost predicate Holds(c: NginxConfig, done: seq<Stmt>, ss: set<NginxConfigStatement>)
    reads c, ss
  {
    && |done| <= |c.statements_|
    && forall i :: 0 <= i < |done| ==>
         && c.statements_[i] in ss
         && c.statements_[i].value == done[i]
         && c.statements_[i].owner == c && c.statements_[i].index == i
  }

  /** All objects of `cs` and `ss` are finished: each represents its value through its real fields,
      and all they refer to is among them. */
  ghost predicate Closed(cs: set<NginxConfig>, ss: set<NginxConfigStatement>)
    reads cs, ss
  {
    && (forall s :: s in ss ==>
          if s.child_block_ == null then s.value == Simple(s.tokens_)
          else
            && s.child_block_ in cs && s.child_block_.owner == s
            && s.value == Block(s.tokens_, s.child_block_.value))
    && (forall c :: c in cs ==> Holds(c, c.value, ss) && |c.statements_| == |c.value|)
  }

  // ----- finished objects form trees -----

  function HeightStmt(s: Stmt): nat
    decreases s, 0
  {
    match s
    case Simple(_) => 0
    case Block(_, body) => 1 + Height(body)
  }

  /** How deeply blocks are nested. */
  function Height(stmts: seq<Stmt>): nat
    decreases stmts, 1
  {
    if stmts == [] then 0
    else
      var a, b := HeightStmt(stmts[0]), Height(stmts[1..]);
      if a < b then b else a
  }

  lemma {:induction false} HeightOfChild(stmts: seq<Stmt>, i: nat)
    requires i < |stmts| && stmts[i].Block?
    ensures Height(stmts[i].body) < Height(stmts)
  {
    if 0 < i {
      HeightOfChild(stmts[1..], i - 1);
    }
  }

  /** `d` is the child block of a statement of `c`. */
  ghost predicate ChildOf(d: NginxConfig, c: NginxConfig)
    reads c, c.statements_
  {
    exists i :: 0 <= i < |c.statements_| && c.statements_[i].child_block_ == d
  }

  /** A path downwards through finished configurations never comes back to where it has been. */
  lemma {:induction false} NestingIsAcyclic(cs: set<NginxConfig>, ss: set<NginxConfigStatement>, path: seq<NginxConfig>)
    requires Closed(cs, ss) && 2 <= |path| && path[0] in cs
    requires forall i :: 0 <= i < |path| - 1 ==> ChildOf(path[i + 1], path[i])
    ensures path[|path| - 1] in cs && Height(path[|path| - 1].value) < Height(path[0].value)
    ensures path[|path| - 1] != path[0]
  {
    var c, d := path[0], path[1];
    assert ChildOf(path[0 + 1], path[0]);
    var i :| 0 <= i < |c.statements_| && c.statements_[i].child_block_ == d;
    assert c.statements_[i] in ss && c.value[i] == Block(c.statements_[i].tokens_, d.value);
    HeightOfChild(c.value, i);
    if 2 < |path| {
      var tail := path[1..];
      forall j | 0 <= j < |tail| - 1
        ensures ChildOf(tail[j + 1], tail[j])
      {
        assert ChildOf(path[j + 1 + 1], path[j + 1]);
      }
      NestingIsAcyclic(cs, ss, tail);
    }
  }

  /** A finished configuration is the child block of at most one statement, and that statement stands
      in at most one place. */
  lemma NothingIsShared(cs: set<NginxConfig>, ss: set<NginxConfigStatement>,
                        c: NginxConfig, i: nat, d: NginxConfig, j: nat)
    requires Closed(cs, ss) && c in cs && d in cs && i < |c.statements_| && j < |d.statements_|
    requires c.statements_[i] == d.statements_[j]
             || (c.statements_[i].child_block_ == d.statements_[j].child_block_ != null)
    ensures c == d && i == j
  {
    assert Holds(c, c.value, ss) && Holds(d, d.value, ss);
    assert c.statements_[i] in ss && d.statements_[j] in ss;
  }
}
