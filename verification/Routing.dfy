/** From the text of a configuration file to the handler that serves a URI. */
module Routing {
  import opened Text
  import opened ConfigTree
  import opened TokenStream
  import opened ParserMachine
  import opened RoundTrip
  import opened StatusRecorder
  import opened Router

  /** The body of the last `router` block, which the server hands to its router. */
  function RouterBlock(tree: seq<Stmt>): Option<seq<Stmt>>
    decreases |tree|
  {
    if tree == [] then None
    else if Back(tree).Block? && Back(tree).tokens != [] && Back(tree).tokens[0] == "router" then Some(Back(tree).body)
    else RouterBlock(Front(tree))
  }

  /** Each `location` in a handler's block is given a value. */
  predicate LocationsHaveValues(config: seq<Stmt>) {
    forall i :: 0 <= i < |config| && NamesHandler(config[i]) ==>
      forall j :: 0 <= j < |config[i].body| ==> LocationHasValue(config[i].body[j])
  }

  predicate LocationHasValue(s: Stmt) {
    IsLocation(s) ==> |s.tokens| > 1
  }

  lemma {:induction false} RouterBlockIsTokenised(tree: seq<Stmt>)
    requires Tokenised(tree) && RouterBlock(tree).Some?
    ensures Tokenised(RouterBlock(tree).value)
    decreases |tree|
  {
    assert tree != [];
    assert TokenisedStmt(tree[|tree| - 1]);
    if !(Back(tree).Block? && Back(tree).tokens[0] == "router") {
      RouterBlockIsTokenised(Front(tree));
    }
  }

  lemma TokenisedIsRoutable(config: seq<Stmt>)
    requires Tokenised(config) && LocationsHaveValues(config)
    ensures Routable(config)
  {
    forall i | 0 <= i < |config| && config[i].Block?
      ensures config[i].tokens != [] && (NamesHandler(config[i]) ==> HasValues(config[i].body))
    {
      assert TokenisedStmt(config[i]);
      if NamesHandler(config[i]) {
        var body := config[i].body;
        forall j | 0 <= j < |body|
          ensures body[j].tokens != [] && (IsLocation(body[j]) ==> |body[j].tokens| > 1)
        {
          assert TokenisedStmt(body[j]) && LocationHasValue(body[j]);
        }
      }
    }
  }

  /** The first of the longest locations that are prefixes of the URI. */
  predicate IsBest(routes: seq<Route>, uri: string, i: nat) {
    && i < |routes| && routes[i].uri <= uri
    && forall j :: 0 <= j < |routes| && routes[j].uri <= uri ==>
         |routes[j].uri| < |routes[i].uri| || (|routes[j].uri| == |routes[i].uri| && i <= j)
  }

  lemma BestIsLongestPrefix(routes: seq<Route>, uri: string, i: nat)
    requires IsBest(routes, uri, i)
    ensures var m := Register(map[], routes);
            LongestPrefix(m, uri) == routes[i].uri && routes[i].uri in m && m[routes[i].uri] == routes[i].handler
  {
    var m := Register(map[], routes);
    var best := routes[i].uri;
    forall j | 0 <= j < i
      ensures routes[j].uri != best
    {
    }
    assert FirstFor(routes, best, i);
    RegisterIsFirstWins(routes, best);
    forall k | k in m && k <= uri
      ensures |k| <= |best|
    {
      OnlyGivenUris(routes, k);
      var j: nat :| j < |routes| && routes[j].uri == k;
    }
    LongestPrefixIff(m, uri, best);
  }

  lemma NoneIsEmptyPrefix(routes: seq<Route>, uri: string)
    requires forall j :: 0 <= j < |routes| ==> !(routes[j].uri <= uri)
    ensures var m := Register(map[], routes); LongestPrefix(m, uri) == "" && "" !in m
  {
    var m := Register(map[], routes);
    forall k: string | k in m
      ensures !(k <= uri)
    {
      OnlyGivenUris(routes, k);
      var j: nat :| j < |routes| && routes[j].uri == k;
    }
    assert "" <= uri;
    LongestPrefixIff(m, uri, "");
  }

  lemma {:induction false} BestExists(routes: seq<Route>, uri: string, j: nat) returns (i: nat)
    requires j < |routes| && routes[j].uri <= uri
    ensures IsBest(routes, uri, i)
    decreases |uri| - |routes[j].uri|, j
  {
    if k: nat :| k < |routes| && routes[k].uri <= uri
                 && (|routes[k].uri| > |routes[j].uri| || (|routes[k].uri| == |routes[j].uri| && k < j)) {
      i := BestExists(routes, uri, k);
    } else {
      i := j;
    }
  }

  /** For every configuration text, accepted or not, whose locations have values: a URI is served by
      the handler of its longest location, the first one given if several are equally long (there is
      one whenever some location is a prefix of it), and by the default handler otherwise. The fall-back
      to proxy locations never decides, since no location is empty. */
  lemma ServedByLongestLocation(text: string, uri: string)
    requires var tree := ParseText([], text).tree;
             RouterBlock(tree).Some? && LocationsHaveValues(RouterBlock(tree).value)
    ensures var config := RouterBlock(ParseText([], text).tree).value;
            && Routable(config)
            && var routes := Routes(config);
               var m := Register(map[], routes);
               var name := RouteHandler(m, config, LongestPrefix(m, uri));
               && (forall i: nat :: IsBest(routes, uri, i) ==> name == routes[i].handler)
               && ((exists j :: 0 <= j < |routes| && routes[j].uri <= uri) ==> exists i: nat :: IsBest(routes, uri, i))
               && ((forall j :: 0 <= j < |routes| ==> !(routes[j].uri <= uri)) ==> name == "default")
               && (LongestPrefix(m, uri) !in m ==> name == "default")
  {
    var config := RouterBlock(ParseText([], text).tree).value;
    PartialTreeIsTokenised(text);
    RouterBlockIsTokenised(ParseText([], text).tree);
    TokenisedIsRoutable(config);
    hide ParseText, RouterBlock, LocationsHaveValues, LongestPrefix, Register, Routes;
    var routes := Routes(config);
    var m := Register(map[], routes);
    forall i: nat | IsBest(routes, uri, i)
      ensures RouteHandler(m, config, LongestPrefix(m, uri)) == routes[i].handler
    {
      BestIsLongestPrefix(routes, uri, i);
    }
    LongestPrefixIs(m, uri);
    NoEmptyProxy(config);
    if j :| 0 <= j < |routes| && routes[j].uri <= uri {
      var best := BestExists(routes, uri, j);
    } else {
      NoneIsEmptyPrefix(routes, uri);
    }
  }

  /** No proxy location is empty. */
  lemma NoEmptyProxy(config: seq<Stmt>)
    requires Tokenised(config) && Routable(config)
    ensures var proxy := HandlerConfig(config, "proxy");
            proxy.Some? ==> HasValues(proxy.value) && !ValidProxy(proxy.value, "")
  {
    HandlerConfigHasValues(config, "proxy");
    if HandlerConfig(config, "proxy").Some? {
      var body := HandlerConfig(config, "proxy").value;
      HandlerConfigIsTokenised(config, "proxy");
      forall i | 0 <= i < |body| && IsLocation(body[i])
        ensures body[i].tokens[1] != ""
      {
        assert TokenisedStmt(body[i]);
        assert Lexable(body[i].tokens[1]);
      }
    }
  }

  lemma {:induction false} HandlerConfigIsTokenised(config: seq<Stmt>, name: string)
    requires Tokenised(config)
    ensures HandlerConfig(config, name).Some? ==> Tokenised(HandlerConfig(config, name).value)
    decreases |config|
  {
    if config != [] {
      assert TokenisedStmt(config[|config| - 1]);
      HandlerConfigIsTokenised(Front(config), name);
    }
  }

  /** A handler that is served by a route always has a configuration: the last block that names it,
      which need not be the block that gave the route. */
  lemma {:induction false} RoutedHandlersAreConfigured(config: seq<Stmt>, i: nat)
    requires Routable(config) && i < |Routes(config)|
    ensures HandlerConfig(config, Routes(config)[i].handler).Some?
    decreases |config|
  {
    assert config != [];
    var s := Back(config);
    var before := Routes(Front(config));
    if i < |before| {
      RoutedHandlersAreConfigured(Front(config), i);
    } else {
      LocationsHandler(s.tokens[1], s.body, i - |before|);
    }
  }

  lemma {:induction false} LocationsHandler(handler: string, body: seq<Stmt>, i: nat)
    requires HasValues(body) && i < |Locations(handler, body)|
    ensures Locations(handler, body)[i].handler == handler
    decreases |body|
  {
    if i < |Locations(handler, Front(body))| {
      LocationsHandler(handler, Front(body), i);
    }
  }

  // ----- the block that gives a route and the block that configures its handler -----

  predicate ConfiguresHandler(s: Stmt, name: string) {
    NamesHandler(s) && s.tokens[1] == name
  }

  /** The position of the last block for a handler name, or -1. */
  function LastBlock(config: seq<Stmt>, name: string): (i: int)
    ensures -1 <= i < |config| && (i >= 0 ==> ConfiguresHandler(config[i], name))
    decreases |config|
  {
    if config == [] then -1
    else if ConfiguresHandler(Back(config), name) then |config| - 1
    else LastBlock(Front(config), name)
  }

  /** The position of the block that gives a route. */
  function RouteBlock(config: seq<Stmt>, i: nat): (b: nat)
    requires Routable(config) && i < |Routes(config)|
    ensures b < |config|
    decreases |config|
  {
    if i < |Routes(Front(config))| then RouteBlock(Front(config), i) else |config| - 1
  }

  lemma {:induction false} LastBlockIs(config: seq<Stmt>, name: string)
    ensures var b := LastBlock(config, name);
            && HandlerConfig(config, name) == (if b < 0 then None else Some(config[b].body))
            && forall j :: b < j < |config| ==> !ConfiguresHandler(config[j], name)
    decreases |config|
  {
    if config != [] && !ConfiguresHandler(Back(config), name) {
      LastBlockIs(Front(config), name);
      forall j | LastBlock(config, name) < j < |config|
        ensures !ConfiguresHandler(config[j], name)
      {
        assert j < |config| - 1 ==> config[j] == Front(config)[j];
      }
    }
  }

  lemma {:induction false} RouteBlockIs(config: seq<Stmt>, i: nat)
    requires Routable(config) && i < |Routes(config)|
    ensures var b := RouteBlock(config, i);
            && ConfiguresHandler(config[b], Routes(config)[i].handler)
            && Routes(config)[i] in Locations(config[b].tokens[1], config[b].body)
    decreases |config|
  {
    var before := Routes(Front(config));
    if i < |before| {
      RouteBlockIs(Front(config), i);
    } else {
      var s := Back(config);
      LocationsHandler(s.tokens[1], s.body, i - |before|);
      assert Routes(config)[i] == Locations(s.tokens[1], s.body)[i - |before|];
    }
  }

  /** A route's handler is configured by the block that gives the route if and only if no later block
      has the same name; otherwise by the last of those. */
  lemma ConfiguredByItsBlockIff(config: seq<Stmt>, i: nat)
    requires Routable(config) && i < |Routes(config)|
    ensures var name, b := Routes(config)[i].handler, RouteBlock(config, i);
            && 0 <= b <= LastBlock(config, name)
            && HandlerConfig(config, name) == Some(config[LastBlock(config, name)].body)
            && (LastBlock(config, name) == b <==> forall j :: b < j < |config| ==> !ConfiguresHandler(config[j], name))
  {
    RouteBlockIs(config, i);
    LastBlockIs(config, Routes(config)[i].handler);
  }

  /** A configuration in which the two blocks differ. */
  const TWO_BLOCKS := [
    Block(["handler", "static1"], [Simple(["location", "/a"]), Simple(["root", "one"])]),
    Block(["handler", "static1"], [Simple(["root", "two"])])
  ]

  lemma RouteFromFirstConfigFromLast()
    ensures Routable(TWO_BLOCKS) && Routes(TWO_BLOCKS) == [Route("/a", "static1")]
    ensures RouteBlock(TWO_BLOCKS, 0) == 0
    ensures HandlerConfig(TWO_BLOCKS, "static1") == Some([Simple(["root", "two"])])
    ensures HandlerConfig(TWO_BLOCKS, "static1") != Some(TWO_BLOCKS[0].body)
  {
    var one, two := TWO_BLOCKS[0].body, TWO_BLOCKS[1].body;
    assert HasValues(one) && HasValues(two);
    assert Routable(TWO_BLOCKS);
    assert Front(one) == [Simple(["location", "/a"])] && Front(Front(one)) == [] && Front(two) == [];
    assert "root" != "location";
    assert Locations("static1", Front(one)) == [Route("/a", "static1")];
    assert Locations("static1", one) == [Route("/a", "static1")];
    assert Locations("static1", two) == [];
    assert Front(TWO_BLOCKS) == [TWO_BLOCKS[0]] && Front(Front(TWO_BLOCKS)) == [];
    assert Routes(Front(TWO_BLOCKS)) == [Route("/a", "static1")];
    assert |one| == 2 && |two| == 1;
  }
}
