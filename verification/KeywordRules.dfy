/** What each keyword does with the tokens behind it, in terms of the tokens and numbers themselves. */
module KeywordRules {
  import opened Text
  import opened ConfigTree
  import opened TokenStream
  import opened RoundTrip
  import opened Settings
  import opened ServerSettings

  predicate IsKeyword(t: string) {
    t == "port" || t == "root" || t == "threadCount"
  }

  /** No number, or none from 1 to 65535. */
  predicate BadPort(t: string) {
    Stoi(t).None? || Stoi(t).value <= 0 || 65535 < Stoi(t).value
  }

  /** No number, or zero. */
  predicate BadCount(t: string) {
    Stoi(t).None? || Stoi(t).value == 0
  }

  lemma Next(g: Gathered, prev: string, t: string, rest: seq<string>)
    ensures var s := SlotOf(prev, t);
            GatherStatement(g, prev, [t] + rest) ==
            GatherStatement(Gather(g, s), NextKeyword(g.port.Some?, s), rest)
  {
    assert ([t] + rest)[1..] == rest;
  }

  /** Behind a token that is no keyword any token is passed over. */
  lemma PassedOver(g: Gathered, prev: string, t: string, rest: seq<string>)
    requires !IsKeyword(prev)
    ensures GatherStatement(g, prev, [t] + rest) == GatherStatement(g, t, rest)
  {
    Next(g, prev, t, rest);
    hide GatherStatement, Stoi;
  }

  lemma {:induction false} BadPortsPassedOver(g: Gathered, bad: seq<string>, rest: seq<string>)
    requires g.port.None? && forall i :: 0 <= i < |bad| ==> BadPort(bad[i])
    ensures GatherStatement(g, "port", bad + rest) == GatherStatement(g, "port", rest)
    decreases |bad|
  {
    hide GatherStatement, Stoi;
    if bad == [] {
      assert bad + rest == rest;
    } else {
      assert bad + rest == [bad[0]] + (bad[1..] + rest);
      Next(g, "port", bad[0], bad[1..] + rest);
      assert BadPort(bad[0]) && !GoodPort(Stoi(bad[0]));
      BadPortsPassedOver(g, bad[1..], rest);
    }
  }

  /** As long as there is no port, the first number from 1 to 65535 behind `port` is taken, whatever
      other tokens come in between, keywords included. */
  lemma PortRule(g: Gathered, prev: string, bad: seq<string>, t: string, rest: seq<string>)
    requires !IsKeyword(prev) && g.port.None? && forall i :: 0 <= i < |bad| ==> BadPort(bad[i])
    requires Stoi(t).Some? && 1 <= Stoi(t).value <= 65535
    ensures GatherStatement(g, prev, ["port"] + (bad + ([t] + rest))) ==
            GatherStatement(g.(port := Some(Stoi(t).value)), t, rest)
  {
    hide GatherStatement, Stoi;
    PassedOver(g, prev, "port", bad + ([t] + rest));
    BadPortsPassedOver(g, bad, [t] + rest);
    Next(g, "port", t, rest);
  }

  /** When no such number follows there is still no port. */
  lemma NoPortRule(g: Gathered, prev: string, bad: seq<string>)
    requires !IsKeyword(prev) && g.port.None? && forall i :: 0 <= i < |bad| ==> BadPort(bad[i])
    ensures GatherStatement(g, prev, ["port"] + bad) == g
  {
    assert bad + [] == bad;
    PassedOver(g, prev, "port", bad);
    BadPortsPassedOver(g, bad, []);
  }

  /** Once there is a port, what follows `port` is passed over. */
  lemma SecondPortRule(g: Gathered, prev: string, t: string, rest: seq<string>)
    requires !IsKeyword(prev) && g.port.Some?
    ensures GatherStatement(g, prev, ["port"] + ([t] + rest)) == GatherStatement(g, t, rest)
  {
    hide GatherStatement, Stoi;
    PassedOver(g, prev, "port", [t] + rest);
    Next(g, "port", t, rest);
  }

  /** The token behind `root` is taken at once, whatever it is, and the full stop stands for nothing. */
  lemma RootRule(g: Gathered, prev: string, t: string, rest: seq<string>)
    requires !IsKeyword(prev)
    ensures GatherStatement(g, prev, ["root"] + ([t] + rest)) ==
            GatherStatement(g.(root := if t == "." then "" else t), t, rest)
  {
    hide GatherStatement, Stoi;
    PassedOver(g, prev, "root", [t] + rest);
    Next(g, "root", t, rest);
  }

  /** What tokens that are no thread count leave: a zero among them resets the count to 10. */
  function Reset(g: Gathered, bad: seq<string>): Gathered {
    if exists i :: 0 <= i < |bad| && Stoi(bad[i]) == Some(0) then g.(threads := 10) else g
  }

  lemma ResetStep(g: Gathered, bad: seq<string>)
    requires bad != []
    ensures Reset(g, bad) == Reset(if Stoi(bad[0]) == Some(0) then g.(threads := 10) else g, bad[1..])
  {
    hide Stoi;
    if i :| 0 <= i < |bad| && Stoi(bad[i]) == Some(0) {
      assert i > 0 ==> bad[1..][i - 1] == bad[i];
    }
    if i :| 0 <= i < |bad[1..]| && Stoi(bad[1..][i]) == Some(0) {
      assert bad[i + 1] == bad[1..][i];
    }
  }

  lemma {:induction false} BadCountsPassedOver(g: Gathered, bad: seq<string>, rest: seq<string>)
    requires forall i :: 0 <= i < |bad| ==> BadCount(bad[i])
    ensures GatherStatement(g, "threadCount", bad + rest) ==
            GatherStatement(Reset(g, bad), "threadCount", rest)
    decreases |bad|
  {
    hide GatherStatement, Stoi;
    if bad == [] {
      assert bad + rest == rest;
    } else {
      assert bad + rest == [bad[0]] + (bad[1..] + rest);
      Next(g, "threadCount", bad[0], bad[1..] + rest);
      ResetStep(g, bad);
      assert BadCount(bad[0]) && !GoodThreads(Stoi(bad[0]));
      hide Reset;
      BadCountsPassedOver(if Stoi(bad[0]) == Some(0) then g.(threads := 10) else g, bad[1..], rest);
    }
  }

  /** The first number but zero behind `threadCount` is taken, whatever other tokens come in between; a
      negative one is taken modulo 2^32. */
  lemma ThreadRule(g: Gathered, prev: string, bad: seq<string>, t: string, rest: seq<string>)
    requires !IsKeyword(prev) && forall i :: 0 <= i < |bad| ==> BadCount(bad[i])
    requires Stoi(t).Some? && Stoi(t).value != 0
    ensures var n := Stoi(t).value;
            GatherStatement(g, prev, ["threadCount"] + (bad + ([t] + rest))) ==
            GatherStatement(g.(threads := if n < 0 then n + 4294967296 else n), t, rest)
  {
    hide GatherStatement, Stoi;
    PassedOver(g, prev, "threadCount", bad + ([t] + rest));
    BadCountsPassedOver(g, bad, [t] + rest);
    Next(Reset(g, bad), "threadCount", t, rest);
  }

  /** When none follows, the count stays, unless there is a zero: then it is 10. */
  lemma NoThreadRule(g: Gathered, prev: string, bad: seq<string>)
    requires !IsKeyword(prev) && forall i :: 0 <= i < |bad| ==> BadCount(bad[i])
    ensures GatherStatement(g, prev, ["threadCount"] + bad) ==
            if exists i :: 0 <= i < |bad| && Stoi(bad[i]) == Some(0) then g.(threads := 10) else g
  {
    assert bad + [] == bad;
    PassedOver(g, prev, "threadCount", bad);
    BadCountsPassedOver(g, bad, []);
    hide Stoi;
  }

  // ----- a whole file -----

  lemma Three(g: Gathered, a: seq<string>, b: seq<string>, c: seq<string>)
    ensures GatherAll(g, [a, b, c]) == GatherStatement(GatherStatement(GatherStatement(g, "", a), "", b), "", c)
    ensures GatherAll(g, [a]) == GatherStatement(g, "", a) && GatherAll(g, []) == g
  {
    hide GatherStatement;
    var g1 := GatherStatement(g, "", a);
    var g2 := GatherStatement(g1, "", b);
    assert [a, b, c][1..] == [b, c] && [b, c][1..] == [c] && [c][1..] == [] && [a][1..] == [];
    assert GatherAll(g, [a, b, c]) == GatherAll(g1, [b, c]) == GatherAll(g2, [c]);
    assert GatherAll(g2, [c]) == GatherAll(GatherStatement(g2, "", c), []);
  }

  /** A port from 1 to 65535, a root and a positive thread count are found as they are written. */
  lemma SettingsAsWritten(p: nat, r: string, n: nat)
    requires 1 <= p <= 65535 && 1 <= n < 0x8000_0000
    ensures GatherAll(INITIAL, [["port", Decimal(p)], ["root", r], ["threadCount", Decimal(n)]]) ==
            Gathered(Some(p), if r == "." then "" else r, n)
  {
    StoiOfDecimal(p);
    StoiOfDecimal(n);
    hide GatherStatement, Stoi, Decimal;
    Three(INITIAL, ["port", Decimal(p)], ["root", r], ["threadCount", Decimal(n)]);
    assert ["port", Decimal(p)] == ["port"] + ([] + ([Decimal(p)] + []));
    PortRule(INITIAL, "", [], Decimal(p), []);
    assert ["root", r] == ["root"] + ([r] + []);
    RootRule(INITIAL.(port := Some(p)), "", r, []);
    assert ["threadCount", Decimal(n)] == ["threadCount"] + ([] + ([Decimal(n)] + []));
    var g := Gathered(Some(p), if r == "." then "" else r, 10);
    ThreadRule(g, "", [], Decimal(n), []);
    GatherNothing(INITIAL.(port := Some(p)), Decimal(p));
    GatherNothing(g, r);
    GatherNothing(g.(threads := n), Decimal(n));
  }

  lemma StoiOfCounts(k: nat)
    requires 1 <= k <= 0x8000_0000
    ensures Stoi("0") == Some(0)
    ensures var m: int := k; Stoi("-" + Decimal(k)) == Some(-m)
  {
    var m: int := k;
    StoiOfIntText(-m);
    StoiOfDecimal(0);
    assert Decimal(0) == "0";
    hide Stoi;
  }

  /** Without settings there is no port, no root, and ten threads; zero threads mean ten, and a negative
      number of them 2^32 more. */
  lemma OtherCounts(k: nat)
    requires 1 <= k <= 0x8000_0000
    ensures GatherAll(INITIAL, []) == Gathered(None, "", 10)
    ensures GatherAll(INITIAL, [["threadCount", "0"]]).threads == 10
    ensures GatherAll(INITIAL, [["threadCount", "-" + Decimal(k)]]).threads == 4294967296 - k
  {
    var t := "-" + Decimal(k);
    StoiOfCounts(k);
    hide GatherStatement, Stoi, Decimal;
    Three(INITIAL, ["threadCount", "0"], [], []);
    Three(INITIAL, ["threadCount", t], [], []);
    assert ["threadCount", "0"] == ["threadCount"] + ["0"];
    NoThreadRule(INITIAL, "", ["0"]);
    assert ["threadCount", t] == ["threadCount"] + ([] + ([t] + []));
    ThreadRule(INITIAL, "", [], t, []);
    GatherNothing(INITIAL.(threads := 4294967296 - k), t);
  }

  /** Numbers that are no ports, and tokens that are no numbers, do not spoil a port behind them. */
  lemma PortBehindOthers(bad: seq<string>, p: nat)
    requires 1 <= p <= 65535 && forall i :: 0 <= i < |bad| ==> BadPort(bad[i])
    ensures GatherAll(INITIAL, [["port"] + (bad + [Decimal(p)])]) == Gathered(Some(p), "", 10)
    ensures GatherAll(INITIAL, [["port"] + bad]) == Gathered(None, "", 10)
  {
    StoiOfDecimal(p);
    hide GatherStatement, Stoi, Decimal;
    Three(INITIAL, ["port"] + (bad + [Decimal(p)]), [], []);
    Three(INITIAL, ["port"] + bad, [], []);
    assert [Decimal(p)] + [] == [Decimal(p)];
    PortRule(INITIAL, "", bad, Decimal(p), []);
    GatherNothing(INITIAL.(port := Some(p)), Decimal(p));
    NoPortRule(INITIAL, "", bad);
  }

  // ----- from the text -----

  lemma DecimalIsBareWord(n: nat)
    ensures IsBareWord(Decimal(n))
  {
    DecimalRoundTrip(n);
    var s := Decimal(n);
    assert forall i :: 0 <= i < |s| ==> IsDigit(s[i]);
    hide Decimal;
  }

  lemma OneLine(word: string, value: string)
    ensures PrintStmt(Simple([word, value]), 0) == word + " " + value + ";\n"
  {
    assert [word, value][1..] == [value];
    assert Indent(0) + Joined([word, value]) == Joined([word, value]);
  }

  lemma ThreeLines(a: Stmt, b: Stmt, c: Stmt)
    ensures Print([a, b, c], 0) == PrintStmt(a, 0) + (PrintStmt(b, 0) + PrintStmt(c, 0))
  {
    hide PrintStmt;
    assert [a, b, c][1..] == [b, c] && [b, c][1..] == [c] && [c][1..] == [];
    assert Print([c], 0) == PrintStmt(c, 0) + Print([], 0) == PrintStmt(c, 0);
    assert Print([b, c], 0) == PrintStmt(b, 0) + Print([c], 0);
  }

  lemma WordIsLexable(t: string)
    requires IsBareWord(t)
    ensures Lexable(t)
  {
  }

  lemma LineIsPrintable(a: seq<string>)
    requires |a| == 2 && Lexable(a[0]) && Lexable(a[1])
    ensures WellFormedStmt(Simple(a)) && TokenisedStmt(Simple(a))
  {
  }

  lemma PrintableThree(a: seq<string>, b: seq<string>, c: seq<string>)
    requires |a| == |b| == |c| == 2
    requires Lexable(a[0]) && Lexable(a[1]) && Lexable(b[0]) && Lexable(b[1]) && Lexable(c[0]) && Lexable(c[1])
    ensures Printable([Simple(a), Simple(b), Simple(c)])
  {
    LineIsPrintable(a);
    LineIsPrintable(b);
    LineIsPrintable(c);
    hide Lexable, WellFormedStmt, TokenisedStmt;
  }

  /** The settings of a whole file, from its text. */
  lemma SettingsOfPlainText(p: nat, r: string, n: nat)
    requires 1 <= p <= 65535 && 1 <= n < 0x8000_0000 && Lexable(r)
    ensures SettingsOf("port " + Decimal(p) + ";\n" + ("root " + r + ";\n" + ("threadCount " + Decimal(n) + ";\n"))) ==
            Gathered(Some(p), if r == "." then "" else r, n)
  {
    hide *;
    DecimalIsBareWord(p);
    DecimalIsBareWord(n);
    KeywordsAreLexable();
    var a, b, c := ["port", Decimal(p)], ["root", r], ["threadCount", Decimal(n)];
    var tree := [Simple(a), Simple(b), Simple(c)];
    WordIsLexable(Decimal(p));
    WordIsLexable(Decimal(n));
    PrintableThree(a, b, c);
    PrintThenParse([], tree, 0);
    ThreeLines(tree[0], tree[1], tree[2]);
    OneLine("port", Decimal(p));
    OneLine("root", r);
    OneLine("threadCount", Decimal(n));
    assert "port" + " " == "port " && "root" + " " == "root " && "threadCount" + " " == "threadCount ";
    SettingsIs(Print(tree, 0));
    assert [] + tree == tree;
    TopTokensOfThree(a, b, c);
    SettingsAsWritten(p, r, n);
  }

  lemma TopTokensOfThree(a: seq<string>, b: seq<string>, c: seq<string>)
    ensures TopTokens([Simple(a), Simple(b), Simple(c)]) == [a, b, c]
  {
  }

  lemma KeywordsAreLexable()
    ensures Lexable("port") && Lexable("root") && Lexable("threadCount")
  {
    assert IsBareWord("port") && IsBareWord("root") && IsBareWord("threadCount");
  }
}
