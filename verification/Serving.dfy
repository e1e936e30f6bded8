/** Which handler object serves a URI, and with which block of the file, in terms of the places in the
    configuration and of the keywords and names written out. */
module Serving {
  import opened Text
  import opened ConfigTree
  import opened ParserMachine
  import opened StatusRecorder
  import opened Router
  import opened Routing

  // ----- places -----

  /** `handler NAME { … }` */
  predicate HandlerAt(config: seq<Stmt>, b: nat) {
    b < |config| && config[b].Block? && |config[b].tokens| > 1 && config[b].tokens[0] == "handler"
  }

  /** `location PREFIX …` as statement `j` of the handler block `b`. */
  predicate LocationAt(config: seq<Stmt>, b: nat, j: nat) {
    && HandlerAt(config, b) && j < |config[b].body|
    && |config[b].body[j].tokens| > 1 && config[b].body[j].tokens[0] == "location"
  }

  function NameAt(config: seq<Stmt>, b: nat): string
    requires HandlerAt(config, b)
  {
    config[b].tokens[1]
  }

  function PrefixAt(config: seq<Stmt>, b: nat, j: nat): string
    requires LocationAt(config, b, j)
  {
    config[b].body[j].tokens[1]
  }

  /** The location at this place is a prefix of the URI, and no other is longer, or as long and earlier in
      the file. */
  ghost predicate Serves(config: seq<Stmt>, uri: string, b: nat, j: nat) {
    && LocationAt(config, b, j) && PrefixAt(config, b, j) <= uri
    && forall c: nat, k: nat :: LocationAt(config, c, k) && PrefixAt(config, c, k) <= uri ==>
         || |PrefixAt(config, c, k)| < |PrefixAt(config, b, j)|
         || (|PrefixAt(config, c, k)| == |PrefixAt(config, b, j)| && (b < c || (b == c && j <= k)))
  }

  /** No location in the file is a prefix of the URI. */
  ghost predicate NoneServes(config: seq<Stmt>, uri: string) {
    forall b: nat, j: nat :: LocationAt(config, b, j) ==> !(PrefixAt(config, b, j) <= uri)
  }

  // ----- places and routes -----

  /** The position of a place among the routes. */
  function RouteIndex(config: seq<Stmt>, b: nat, j: nat): nat
    requires Routable(config) && LocationAt(config, b, j)
  {
    |Routes(config[..b])| + |Locations(NameAt(config, b), config[b].body[..j])|
  }

  lemma {:induction false} LocationsPrefix(handler: string, body: seq<Stmt>, j: nat, k: nat)
    requires HasValues(body) && j <= k <= |body|
    ensures Locations(handler, body[..j]) <= Locations(handler, body[..k])
    decreases k
  {
    if j < k {
      LocationsUpTo(handler, body, k - 1);
      LocationsPrefix(handler, body, j, k - 1);
    }
  }

  lemma {:induction false} RoutesPrefix(config: seq<Stmt>, b: nat, c: nat)
    requires Routable(config) && b <= c <= |config|
    ensures Routes(config[..b]) <= Routes(config[..c])
    decreases c
  {
    if b < c {
      RoutesUpTo(config, c - 1);
      RoutesPrefix(config, b, c - 1);
    }
  }

  lemma LocationIndex(handler: string, body: seq<Stmt>, j: nat)
    requires HasValues(body) && j < |body| && IsLocation(body[j])
    ensures var i := |Locations(handler, body[..j])|;
            i < |Locations(handler, body)| && Locations(handler, body)[i] == Route(body[j].tokens[1], handler)
  {
    LocationsUpTo(handler, body, j);
    LocationsPrefix(handler, body, j + 1, |body|);
    assert body[..|body|] == body;
    hide Locations;
    var i := |Locations(handler, body[..j])|;
    assert Locations(handler, body[..j + 1])[i] == Route(body[j].tokens[1], handler);
  }

  lemma InPrefix<T>(a: seq<T>, b: seq<T>, all: seq<T>, i: nat)
    requires a + b <= all && i < |b|
    ensures |a| + i < |all| && all[|a| + i] == b[i]
  {
    assert (a + b)[|a| + i] == b[i];
  }

  /** Every place gives the route at its position. */
  lemma RouteAt(config: seq<Stmt>, b: nat, j: nat)
    requires Routable(config) && LocationAt(config, b, j)
    ensures RouteIndex(config, b, j) < |Routes(config[..b + 1])| <= |Routes(config)|
    ensures Routes(config)[RouteIndex(config, b, j)] == Route(PrefixAt(config, b, j), NameAt(config, b))
  {
    var name, body := NameAt(config, b), config[b].body;
    RoutesUpTo(config, b);
    RoutesPrefix(config, b + 1, |config|);
    assert config[..|config|] == config;
    LocationIndex(name, body, j);
    hide Routes, Locations, Routable;
    InPrefix(Routes(config[..b]), Locations(name, body), Routes(config), |Locations(name, body[..j])|);
  }

  /** The positions follow the order of the file. */
  lemma RouteOrder(config: seq<Stmt>, b: nat, j: nat, c: nat, k: nat)
    requires Routable(config) && LocationAt(config, b, j) && LocationAt(config, c, k)
    requires b < c || (b == c && j <= k)
    ensures RouteIndex(config, b, j) <= RouteIndex(config, c, k)
  {
    if b < c {
      RouteAt(config, b, j);
      RoutesPrefix(config, b + 1, c);
    } else {
      LocationsPrefix(NameAt(config, b), config[b].body, j, k);
    }
  }

  lemma {:induction false} LocationPlace(handler: string, body: seq<Stmt>, i: nat) returns (j: nat)
    requires HasValues(body) && i < |Locations(handler, body)|
    ensures j < |body| && |body[j].tokens| > 1 && body[j].tokens[0] == "location"
    ensures i == |Locations(handler, body[..j])|
    decreases |body|
  {
    if i < |Locations(handler, Front(body))| {
      j := LocationPlace(handler, Front(body), i);
      assert Front(body)[..j] == body[..j];
    } else {
      j := |body| - 1;
    }
  }

  /** Every route has a place. */
  lemma {:induction false} PlaceOfRoute(config: seq<Stmt>, i: nat) returns (b: nat, j: nat)
    requires Routable(config) && i < |Routes(config)|
    ensures LocationAt(config, b, j) && RouteIndex(config, b, j) == i
    decreases |config|
  {
    var before := Routes(Front(config));
    if i < |before| {
      b, j := PlaceOfRoute(Front(config), i);
      assert Front(config)[..b] == config[..b];
    } else {
      b := |config| - 1;
      j := LocationPlace(config[b].tokens[1], config[b].body, i - |before|);
    }
  }

  lemma BestOfPlace(config: seq<Stmt>, uri: string, b: nat, j: nat)
    requires Routable(config) && Serves(config, uri, b, j)
    ensures IsBest(Routes(config), uri, RouteIndex(config, b, j))
    ensures RouteIndex(config, b, j) < |Routes(config)|
    ensures Routes(config)[RouteIndex(config, b, j)].handler == NameAt(config, b)
  {
    hide RouteIndex, Routes;
    var routes := Routes(config);
    var i := RouteIndex(config, b, j);
    RouteAt(config, b, j);
    forall k: nat | k < |routes| && routes[k].uri <= uri
      ensures |routes[k].uri| < |routes[i].uri| || (|routes[k].uri| == |routes[i].uri| && i <= k)
    {
      var c, l := PlaceOfRoute(config, k);
      RouteAt(config, c, l);
      if b < c || (b == c && j <= l) {
        RouteOrder(config, b, j, c, l);
      }
    }
  }

  lemma PlaceOfBest(config: seq<Stmt>, uri: string, i: nat) returns (b: nat, j: nat)
    requires Routable(config) && IsBest(Routes(config), uri, i)
    ensures Serves(config, uri, b, j)
  {
    hide RouteIndex, Routes;
    var routes := Routes(config);
    b, j := PlaceOfRoute(config, i);
    RouteAt(config, b, j);
    forall c: nat, k: nat | LocationAt(config, c, k) && PrefixAt(config, c, k) <= uri
      ensures || |PrefixAt(config, c, k)| < |PrefixAt(config, b, j)|
              || (|PrefixAt(config, c, k)| == |PrefixAt(config, b, j)| && (b < c || (b == c && j <= k)))
    {
      RouteAt(config, c, k);
      if c < b || (c == b && k < j) {
        RouteOrder(config, c, k, b, j);
        if RouteIndex(config, c, k) == i {
          SamePlace(config, c, k, b, j);
        }
      }
    }
  }

  lemma SamePlace(config: seq<Stmt>, b: nat, j: nat, c: nat, k: nat)
    requires Routable(config) && LocationAt(config, b, j) && LocationAt(config, c, k)
    requires b < c || (b == c && j < k)
    ensures RouteIndex(config, b, j) < RouteIndex(config, c, k)
  {
    if b < c {
      RouteAt(config, b, j);
      RoutesPrefix(config, b + 1, c);
    } else {
      LocationsUpTo(NameAt(config, b), config[b].body, j);
      LocationsPrefix(NameAt(config, b), config[b].body, j + 1, k);
    }
  }

  // ----- from the text of the file to the object -----

  /** The position of the last handler block with a name. */
  ghost predicate IsLastBlock(config: seq<Stmt>, name: string, b: nat) {
    && HandlerAt(config, b) && NameAt(config, b) == name
    && forall c: nat :: HandlerAt(config, c) && NameAt(config, c) == name ==> c <= b
  }

  lemma LastBlockGives(config: seq<Stmt>, name: string, b: nat)
    requires IsLastBlock(config, name, b)
    ensures HandlerConfig(config, name) == Some(config[b].body)
  {
    LastBlockIs(config, name);
    var l := LastBlock(config, name);
    hide HandlerConfig, LastBlock;
    assert ConfiguresHandler(config[b], name);
    if l >= 0 {
      assert HandlerAt(config, l);
    }
  }

  lemma NoBlockGives(config: seq<Stmt>, name: string)
    requires forall c: nat :: HandlerAt(config, c) ==> NameAt(config, c) != name
    ensures HandlerConfig(config, name) == None
  {
    LastBlockIs(config, name);
    var l := LastBlock(config, name);
    hide HandlerConfig, LastBlock;
    assert l >= 0 ==> HandlerAt(config, l) && NameAt(config, l) == name;
  }

  /** The last `router { ... }` at the top of the file. */
  ghost predicate IsRouterAt(tree: seq<Stmt>, b: nat) {
    && b < |tree| && tree[b].Block? && tree[b].tokens != [] && tree[b].tokens[0] == "router"
    && forall c :: b < c < |tree| && tree[c].Block? && tree[c].tokens != [] ==> tree[c].tokens[0] != "router"
  }

  lemma {:induction false} RouterBlockAt(tree: seq<Stmt>, b: nat)
    requires IsRouterAt(tree, b)
    ensures RouterBlock(tree) == Some(tree[b].body)
    decreases |tree|
  {
    if b < |tree| - 1 {
      assert Back(tree) == tree[|tree| - 1];
      forall c | b < c < |Front(tree)| && Front(tree)[c].Block? && Front(tree)[c].tokens != []
        ensures Front(tree)[c].tokens[0] != "router"
      {
        assert Front(tree)[c] == tree[c];
      }
      RouterBlockAt(Front(tree), b);
    }
  }

  /** What a router makes for a URI, once it has registered the routes of its configuration. */
  function Made(config: seq<Stmt>, uri: string): Selected
    requires Routable(config)
  {
    var m := Register(map[], Routes(config));
    SelectedFor(config, RouteHandler(m, config, LongestPrefix(m, uri)))
  }

  /** The handlers with an object of their own. */
  predicate HasObject(name: string) {
    name in {"echo", "static1", "static2", "webMeme", "imageMeme", "status", "proxy", "meme", "health"}
  }

  /** An object of the class with the last block of the name, or with none if no block has it. */
  ghost predicate HasClassAndBlock(made: Selected, c: HandlerClass, config: seq<Stmt>, name: string) {
    && made.handler == c
    && (forall b: nat :: IsLastBlock(config, name, b) ==> made.config == Some(config[b].body))
    && ((forall b: nat :: HandlerAt(config, b) ==> NameAt(config, b) != name) ==> made.config == None)
  }

  /** The object for a name: one of its own class with its own block or, for a name without a class, the
      default object with the block named `default`. */
  ghost predicate IsMadeFor(made: Selected, config: seq<Stmt>, name: string) {
    && (name == "echo" ==> HasClassAndBlock(made, Echo, config, "echo"))
    && (name == "static1" ==> HasClassAndBlock(made, StaticFile, config, "static1"))
    && (name == "static2" ==> HasClassAndBlock(made, StaticFile, config, "static2"))
    && (name == "webMeme" ==> HasClassAndBlock(made, StaticFile, config, "webMeme"))
    && (name == "imageMeme" ==> HasClassAndBlock(made, StaticFile, config, "imageMeme"))
    && (name == "status" ==> HasClassAndBlock(made, Status, config, "status"))
    && (name == "proxy" ==> HasClassAndBlock(made, ReverseProxy, config, "proxy"))
    && (name == "meme" ==> HasClassAndBlock(made, Meme, config, "meme"))
    && (name == "health" ==> HasClassAndBlock(made, Health, config, "health"))
    && (!HasObject(name) ==> HasClassAndBlock(made, Default, config, "default"))
  }

  lemma ClassAndBlock(c: HandlerClass, config: seq<Stmt>, name: string)
    ensures HasClassAndBlock(Selected(c, HandlerConfig(config, name)), c, config, name)
  {
    forall b: nat | IsLastBlock(config, name, b)
      ensures HandlerConfig(config, name) == Some(config[b].body)
    {
      LastBlockGives(config, name, b);
    }
    if forall b: nat :: HandlerAt(config, b) ==> NameAt(config, b) != name {
      NoBlockGives(config, name);
    }
  }

  lemma MadeForName(config: seq<Stmt>, name: string)
    ensures IsMadeFor(SelectedFor(config, name), config, name)
  {
    hide HandlerConfig, HasClassAndBlock;
    var c := ClassOf(name);
    ClassAndBlock(c, config, if c.Default? then "default" else name);
  }

  // ----- whole files -----

  /** The last `router` block of a text at `r`; each `location` in a handler's block has a value. */
  ghost predicate IsRouterOf(text: string, r: nat) {
    var tree := ParseText([], text).tree;
    IsRouterAt(tree, r) && LocationsHaveValues(tree[r].body)
  }

  function ConfigOf(text: string, r: nat): seq<Stmt>
    requires IsRouterOf(text, r)
  {
    ParseText([], text).tree[r].body
  }

  lemma RoutesOf(text: string, uri: string, r: nat)
    requires IsRouterOf(text, r)
    ensures var config := ConfigOf(text, r);
            && Routable(config)
            && (forall i: nat :: IsBest(Routes(config), uri, i) ==>
                  Made(config, uri) == SelectedFor(config, Routes(config)[i].handler))
            && ((forall j :: 0 <= j < |Routes(config)| ==> !(Routes(config)[j].uri <= uri)) ==>
                  Made(config, uri) == SelectedFor(config, "default"))
  {
    RouterBlockAt(ParseText([], text).tree, r);
    ServedByLongestLocation(text, uri);
    hide ParseText, RouterBlock, Routes, Register, LongestPrefix, RouteHandler, SelectedFor, IsBest;
  }

  lemma SomethingServes(config: seq<Stmt>, uri: string)
    requires Routable(config)
    ensures NoneServes(config, uri) || exists b: nat, j: nat :: Serves(config, uri, b, j)
  {
    if !NoneServes(config, uri) {
      var b: nat, j: nat :| LocationAt(config, b, j) && PrefixAt(config, b, j) <= uri;
      hide Serves, NoneServes, RouteIndex, Routes;
      RouteAt(config, b, j);
      var i := BestExists(Routes(config), uri, RouteIndex(config, b, j));
      var c, k := PlaceOfBest(config, uri, i);
    }
  }

  lemma NoRouteServes(config: seq<Stmt>, uri: string, i: nat)
    requires Routable(config) && NoneServes(config, uri) && i < |Routes(config)|
    ensures !(Routes(config)[i].uri <= uri)
  {
    hide RouteIndex, Routes;
    var b, j := PlaceOfRoute(config, i);
    RouteAt(config, b, j);
  }

  /** Main result, for every text of a configuration file, accepted or not, whose locations have values,
      and every URI: the object that serves it is the one for the name of the block with the first of the
      longest matching locations, with the last block of that name. There is such a location unless none
      matches; then the default object serves the URI. */
  lemma ServedByObject(text: string, uri: string, r: nat)
    requires IsRouterOf(text, r)
    ensures var config := ConfigOf(text, r);
            && Routable(config)
            && (NoneServes(config, uri) || exists b: nat, j: nat :: Serves(config, uri, b, j))
            && (forall b: nat, j: nat :: Serves(config, uri, b, j) ==>
                  HandlerAt(config, b) && IsMadeFor(Made(config, uri), config, NameAt(config, b)))
            && (NoneServes(config, uri) ==> IsMadeFor(Made(config, uri), config, "default"))
  {
    hide *;
    var config := ConfigOf(text, r);
    RoutesOf(text, uri, r);
    SomethingServes(config, uri);
    forall b: nat, j: nat | Serves(config, uri, b, j)
      ensures HandlerAt(config, b) && IsMadeFor(Made(config, uri), config, NameAt(config, b))
    {
      ServesIsHandler(config, uri, b, j);
      BestOfPlace(config, uri, b, j);
      MadeForName(config, NameAt(config, b));
    }
    if NoneServes(config, uri) {
      forall i | 0 <= i < |Routes(config)|
        ensures !(Routes(config)[i].uri <= uri)
      {
        NoRouteServes(config, uri, i);
      }
      MadeForName(config, "default");
    }
  }

  lemma ServesIsHandler(config: seq<Stmt>, uri: string, b: nat, j: nat)
    requires Serves(config, uri, b, j)
    ensures HandlerAt(config, b)
  {
  }
}
