/** From the text of a configuration file to the settings with which the server starts. */
module ServerSettings {
  import opened ConfigTree
  import opened Lexer
  import opened ParserMachine
  import opened RoundTrip
  import opened Settings
  import opened ConfigHeap
  import opened ConfigParser

  /** The tokens of the top-level statements. */
  function TopTokens(tree: seq<Stmt>): seq<seq<string>> {
    seq(|tree|, i requires 0 <= i < |tree| => tree[i].tokens)
  }

  /** The settings that a text gives; the parser's answer is not asked for. */
  function SettingsOf(text: string): Gathered {
    GatherAll(INITIAL, TopTokens(ParseText([], text).tree))
  }

  lemma TokenListsOfValue(c: NginxConfig, cs: set<NginxConfig>, ss: set<NginxConfigStatement>)
    requires Closed(cs, ss) && c in cs
    ensures c.TokenLists() == TopTokens(c.value)
  {
    forall i | 0 <= i < |c.value|
      ensures c.TokenLists()[i] == TopTokens(c.value)[i]
    {
      assert c.statements_[i] in ss && c.statements_[i].value == c.value[i];
    }
  }

  /** Parses a file's text into a new configuration and extracts its settings, as the server does when
      it starts. */
  method ReadSettings(text: string) returns (config: NginxConfig, ok: bool)
    ensures fresh(config) && config.value == ParseText([], text).tree
    ensures ok <==> SettingsOf(text).port.Some?
    ensures ok ==> config.port_ == SettingsOf(text).port.value
    ensures config.root_ == SettingsOf(text).root && config.threadCount_ == SettingsOf(text).threads
  {
    var input := new InputStream(text);
    config := new NginxConfig();
    assert Closed({config}, {});
    hide Closed, GatherAll, TopTokens, ParseText;
    var parsed;
    ghost var cs, ss, calls;
    parsed, cs, ss, calls := Parse(input, config, {config}, {});
    TokenListsOfValue(config, cs, ss);
    ok := config.ParseStatements();
  }

  /** What a text gives: the first good port among the values that follow `port`, if there is one; the
      last root; and the last readable thread count, or else the default. */
  lemma SettingsOfText(text: string)
    ensures var g := SettingsOf(text);
            var slots := Slots(false, TopTokens(ParseText([], text).tree));
            && (g.port.None? <==> NoneBefore(GivesPort, slots, |slots|))
            && (forall i :: 0 <= i < |slots| && GivesPort(slots[i]) && NoneBefore(GivesPort, slots, i) ==>
                 g.port == slots[i].number)
            && (NoneAfter(GivesRoot, slots, -1) ==> g.root == "")
            && (forall i :: 0 <= i < |slots| && GivesRoot(slots[i]) && NoneAfter(GivesRoot, slots, i) ==>
                 g.root == RootOf(slots[i].token))
            && (NoneAfter(GivesThreads, slots, -1) ==> g.threads == DEFAULT_THREADS)
            && (forall i :: 0 <= i < |slots| && GivesThreads(slots[i]) && NoneAfter(GivesThreads, slots, i) ==>
                 g.threads == ThreadsOf(slots[i].number.value))
  {
    hide *;
    var statements := TopTokens(ParseText([], text).tree);
    SettingsIs(text);
    PortMeaning(statements);
    RootMeaning(statements);
    ThreadsMeaning(statements);
  }

  lemma SettingsIs(text: string)
    ensures SettingsOf(text) == GatherAll(INITIAL, TopTokens(ParseText([], text).tree))
  {
  }

  /** Reformatting an accepted file through the printer changes none of its settings. */
  lemma ReformattingKeepsSettings(text: string, depth: int)
    requires ParseText([], text).ok
    ensures SettingsOf(Print(ParseText([], text).tree, depth)) == SettingsOf(text)
  {
    hide ParseText, Print, GatherAll;
    NormalisationIsFixedPoint(text, depth);
  }
}
