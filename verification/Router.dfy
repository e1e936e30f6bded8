/** The router: routes are registered from the configuration, and a request is served by the handler
    of the longest registered prefix of its URI. */
module Router {
  import opened Text
  import opened ConfigTree
  import opened StatusRecorder

  type RouteMap = map<string, string>

  // ----- what the configuration says -----

  /** A statement of the router's configuration that configures a handler. */
  predicate NamesHandler(s: Stmt) {
    s.Block? && |s.tokens| > 1 && s.tokens[0] == "handler"
  }

  predicate IsLocation(s: Stmt) {
    s.tokens != [] && s.tokens[0] == "location"
  }

  /** What the code takes for granted of a configuration: a statement with a block has a token, and so
      has each statement in a handler's block, where each `location` is given a value. */
  predicate Routable(config: seq<Stmt>) {
    forall i :: 0 <= i < |config| && config[i].Block? ==>
      config[i].tokens != [] && (NamesHandler(config[i]) ==> HasValues(config[i].body))
  }

  predicate HasValues(body: seq<Stmt>) {
    forall i :: 0 <= i < |body| ==> body[i].tokens != [] && (IsLocation(body[i]) ==> |body[i].tokens| > 1)
  }

  /** The locations in one handler's block, in order. */
  function Locations(handler: string, body: seq<Stmt>): seq<Route>
    requires HasValues(body)
    decreases |body|
  {
    if body == [] then []
    else
      var rest := Locations(handler, Front(body));
      if IsLocation(Back(body)) then rest + [Route(Back(body).tokens[1], handler)] else rest
  }

  /** The locations of all handlers, in order. */
  function Routes(config: seq<Stmt>): seq<Route>
    requires Routable(config)
    decreases |config|
  {
    if config == [] then []
    else
      var s := Back(config);
      Routes(Front(config)) + if NamesHandler(s) then Locations(s.tokens[1], s.body) else []
  }

  // ----- registering: the first handler for a URI stays -----

  function Register(m: RouteMap, routes: seq<Route>): RouteMap
    decreases |routes|
  {
    if routes == [] then m
    else
      var before := Register(m, Front(routes));
      var r := Back(routes);
      if r.uri in before then before else before[r.uri := r.handler]
  }

  /** The routes that registering adds to a map, in order. */
  function Recorded(m: RouteMap, routes: seq<Route>): seq<Route>
    decreases |routes|
  {
    if routes == [] then []
    else
      var before := Recorded(m, Front(routes));
      if Back(routes).uri in Register(m, Front(routes)) then before else before + [Back(routes)]
  }

  lemma {:induction false} RegisterConcat(m: RouteMap, a: seq<Route>, b: seq<Route>)
    ensures Register(m, a + b) == Register(Register(m, a), b)
    ensures Recorded(m, a + b) == Recorded(m, a) + Recorded(Register(m, a), b)
    decreases |b|
  {
    if b == [] {
      assert a + b == a;
    } else {
      assert Front(a + b) == a + Front(b) && Back(a + b) == Back(b);
      RegisterConcat(m, a, Front(b));
    }
  }

  lemma RegisterMore(m: RouteMap, list: seq<Route>, before: seq<Route>, added: seq<Route>)
    ensures Register(m, before + added) == Register(Register(m, before), added)
    ensures list + Recorded(m, before + added) ==
            list + Recorded(m, before) + Recorded(Register(m, before), added)
  {
    RegisterConcat(m, before, added);
    Concatenation(list, Recorded(m, before), Recorded(Register(m, before), added));
  }

  lemma RoutesUpTo(config: seq<Stmt>, i: nat)
    requires Routable(config) && i < |config|
    ensures Routable(config[..i + 1])
    ensures Routes(config[..i + 1]) ==
            if NamesHandler(config[i]) then Routes(config[..i]) + Locations(config[i].tokens[1], config[i].body)
            else Routes(config[..i])
  {
    assert Front(config[..i + 1]) == config[..i] && Back(config[..i + 1]) == config[i];
    assert Routes(config[..i]) + [] == Routes(config[..i]);
  }

  lemma LocationsUpTo(handler: string, body: seq<Stmt>, i: nat)
    requires HasValues(body) && i < |body|
    ensures HasValues(body[..i + 1])
    ensures Locations(handler, body[..i + 1]) ==
            if IsLocation(body[i]) then Locations(handler, body[..i]) + [Route(body[i].tokens[1], handler)]
            else Locations(handler, body[..i])
  {
    assert Front(body[..i + 1]) == body[..i] && Back(body[..i + 1]) == body[i];
  }

  lemma NothingRegistered(m: RouteMap, list: seq<Route>, config: seq<Stmt>)
    requires Routable(config)
    ensures m == Register(m, Routes(config[..0])) && list == list + Recorded(m, Routes(config[..0]))
    ensures config[..|config|] == config
  {
  }

  lemma NothingLocated(m: RouteMap, list: seq<Route>, handler: string, body: seq<Stmt>)
    requires HasValues(body)
    ensures m == Register(m, Locations(handler, body[..0]))
    ensures list == list + Recorded(m, Locations(handler, body[..0]))
    ensures body[..|body|] == body
  {
  }

  /** `i` is the first of the routes with this URI. */
  predicate FirstFor(routes: seq<Route>, uri: string, i: nat) {
    i < |routes| && routes[i].uri == uri && forall j :: 0 <= j < i ==> routes[j].uri != uri
  }

  lemma {:induction false} FindFirst(routes: seq<Route>, j: nat) returns (i: nat)
    requires j < |routes|
    ensures FirstFor(routes, routes[j].uri, i) && i <= j
  {
    if k: nat :| k < j && routes[k].uri == routes[j].uri {
      i := FindFirst(routes, k);
    } else {
      i := j;
    }
  }

  lemma {:induction false} FirstStays(routes: seq<Route>, uri: string, i: nat)
    requires FirstFor(routes, uri, i)
    ensures uri in Register(map[], routes) && Register(map[], routes)[uri] == routes[i].handler
    decreases |routes|
  {
    if i == |routes| - 1 {
      OnlyGivenUris(Front(routes), uri);
      forall j: nat | j < |Front(routes)|
        ensures Front(routes)[j].uri != uri
      {
        assert Front(routes)[j] == routes[j];
      }
    } else {
      assert forall j :: 0 <= j < |routes| - 1 ==> Front(routes)[j] == routes[j];
      FirstStays(Front(routes), uri, i);
    }
  }

  lemma {:induction false} OnlyGivenUris(routes: seq<Route>, uri: string)
    ensures uri in Register(map[], routes) <==> exists j: nat :: j < |routes| && routes[j].uri == uri
    decreases |routes|
  {
    if routes != [] {
      OnlyGivenUris(Front(routes), uri);
      assert forall j: nat :: j < |routes| - 1 ==> Front(routes)[j] == routes[j];
      if Back(routes).uri == uri {
        assert routes[|routes| - 1].uri == uri;
      } else if uri in Register(map[], Front(routes)) {
        var j: nat :| j < |Front(routes)| && Front(routes)[j].uri == uri;
        assert routes[j].uri == uri;
      }
    }
  }

  /** The route map is the first-wins mapping of the registered routes: a URI is mapped exactly when
      some route is the first for it, and then to the handler of that route. */
  lemma RegisterIsFirstWins(routes: seq<Route>, uri: string)
    ensures uri in Register(map[], routes) <==> exists i: nat :: FirstFor(routes, uri, i)
    ensures forall i: nat :: FirstFor(routes, uri, i) ==>
              uri in Register(map[], routes) && Register(map[], routes)[uri] == routes[i].handler
  {
    OnlyGivenUris(routes, uri);
    if uri in Register(map[], routes) {
      var j: nat :| j < |routes| && routes[j].uri == uri;
      var first := FindFirst(routes, j);
      assert FirstFor(routes, uri, first);
    }
    forall i: nat | FirstFor(routes, uri, i)
      ensures uri in Register(map[], routes) && Register(map[], routes)[uri] == routes[i].handler
    {
      FirstStays(routes, uri, i);
    }
  }

  predicate NoRepeats(routes: seq<Route>) {
    forall i, j :: 0 <= i < j < |routes| ==> routes[i].uri != routes[j].uri
  }

  /** The recorder's list is the route map written as a list: each URI once. */
  lemma {:induction false} RecordedIsTheMap(routes: seq<Route>)
    ensures NoRepeats(Recorded(map[], routes))
    ensures forall r :: r in Recorded(map[], routes) <==>
                          r.uri in Register(map[], routes) && Register(map[], routes)[r.uri] == r.handler
    decreases |routes|
  {
    if routes != [] {
      RecordedIsTheMap(Front(routes));
      var before := Recorded(map[], Front(routes));
      var last := Back(routes);
      if last.uri !in Register(map[], Front(routes)) {
        forall i | 0 <= i < |before|
          ensures before[i].uri != last.uri
        {
          assert before[i] in before;
        }
      }
    }
  }

  /** The list is in the order of first registration. */
  lemma {:induction false} RecordedInOrder(routes: seq<Route>, a: nat, b: nat) returns (i: nat, j: nat)
    requires a < b < |Recorded(map[], routes)|
    ensures var list := Recorded(map[], routes);
            && i < j && FirstFor(routes, list[a].uri, i) && FirstFor(routes, list[b].uri, j)
            && routes[i] == list[a] && routes[j] == list[b]
    decreases |routes|
  {
    var front := Front(routes);
    var list := Recorded(map[], routes);
    assert forall k :: 0 <= k < |front| ==> front[k] == routes[k];
    if b < |Recorded(map[], front)| {
      i, j := RecordedInOrder(front, a, b);
    } else {
      i := RecordedFirst(front, a);
      j := |front|;
      OnlyGivenUris(front, list[b].uri);
      forall k: nat | k < |front|
        ensures routes[k].uri != list[b].uri
      {
        assert front[k] == routes[k];
      }
    }
  }

  lemma {:induction false} RecordedFirst(routes: seq<Route>, a: nat) returns (i: nat)
    requires a < |Recorded(map[], routes)|
    ensures FirstFor(routes, Recorded(map[], routes)[a].uri, i) && routes[i] == Recorded(map[], routes)[a]
    decreases |routes|
  {
    var front := Front(routes);
    assert forall k :: 0 <= k < |front| ==> front[k] == routes[k];
    if a < |Recorded(map[], front)| {
      i := RecordedFirst(front, a);
    } else {
      i := |front|;
      OnlyGivenUris(front, Back(routes).uri);
      forall k: nat | k < |front|
        ensures routes[k].uri != Back(routes).uri
      {
        assert front[k] == routes[k];
      }
    }
  }

  // ----- the longest prefix -----

  /** A registered prefix of the URI at least as long as every other, or the empty string when no
      non-empty prefix is registered. */
  predicate IsLongestPrefix(m: RouteMap, uri: string, r: string) {
    && r <= uri && (r != "" ==> r in m)
    && forall k :: k in m && k <= uri ==> |k| <= |r|
  }

  /** The answer, found by shortening the URI from its end. */
  function LongestPrefix(m: RouteMap, uri: string): (r: string)
    decreases |uri|
  {
    if uri == "" || uri in m then uri else LongestPrefix(m, Front(uri))
  }

  lemma {:induction false} LongestPrefixIs(m: RouteMap, uri: string)
    ensures IsLongestPrefix(m, uri, LongestPrefix(m, uri))
    decreases |uri|
  {
    if uri != "" && uri !in m {
      LongestPrefixIs(m, Front(uri));
      forall k | k in m && k <= uri
        ensures k <= Front(uri)
      {
        assert |k| != |uri| || k == uri;
      }
    }
  }

  /** So the answer does not depend on the order in which a map is walked. */
  lemma LongestPrefixIff(m: RouteMap, uri: string, r: string)
    ensures IsLongestPrefix(m, uri, r) <==> r == LongestPrefix(m, uri)
  {
    LongestPrefixIs(m, uri);
    var s := LongestPrefix(m, uri);
    if IsLongestPrefix(m, uri, r) {
      assert |r| == |s|;
      assert r == uri[..|r|] && s == uri[..|s|];
    }
  }

  // ----- looking up handlers -----

  /** The body of the last block configuring the named handler. */
  function HandlerConfig(config: seq<Stmt>, name: string): Option<seq<Stmt>>
    decreases |config|
  {
    if config == [] then None
    else if NamesHandler(Back(config)) && Back(config).tokens[1] == name then Some(Back(config).body)
    else HandlerConfig(Front(config), name)
  }

  predicate ValidProxy(body: seq<Stmt>, name: string)
    requires HasValues(body)
  {
    exists i :: 0 <= i < |body| && IsLocation(body[i]) && body[i].tokens[1] == name
  }

  /** The handler mapped to a URI; failing that, the proxy if one of its locations is the URI. */
  function RouteHandler(m: RouteMap, config: seq<Stmt>, uri: string): string
    requires Routable(config)
  {
    if uri in m then m[uri]
    else
      HandlerConfigHasValues(config, "proxy");
      match HandlerConfig(config, "proxy")
      case None => "default"
      case Some(body) => if ValidProxy(body, uri) then "proxy" else "default"
  }

  lemma {:induction false} HandlerConfigHasValues(config: seq<Stmt>, name: string)
    requires Routable(config)
    ensures HandlerConfig(config, name).Some? ==> HasValues(HandlerConfig(config, name).value)
    decreases |config|
  {
    if config != [] {
      HandlerConfigHasValues(Front(config), name);
    }
  }

  /** The class of the handler object made for a handler name. */
  datatype HandlerClass = Echo | StaticFile | Status | ReverseProxy | Meme | Health | Default

  datatype Selected = Selected(handler: HandlerClass, config: Option<seq<Stmt>>)

  function ClassOf(name: string): HandlerClass {
    if name == "echo" then Echo
    else if name in {"static1", "static2", "webMeme", "imageMeme"} then StaticFile
    else if name == "status" then Status
    else if name == "proxy" then ReverseProxy
    else if name == "meme" then Meme
    else if name == "health" then Health
    else Default
  }

  /** The configuration handed to it is the one for its name; a name without a class of its own falls
      back to the default handler and that handler's configuration. */
  function SelectedFor(config: seq<Stmt>, name: string): Selected {
    var c := ClassOf(name);
    Selected(c, HandlerConfig(config, if c.Default? then "default" else name))
  }

  class Router {
    const config_: seq<Stmt>
    const recorder: Recorder
    var route_map_: RouteMap

    constructor (config: seq<Stmt>, recorder: Recorder)
      ensures config_ == config && this.recorder == recorder && route_map_ == map[]
    {
      config_, this.recorder, route_map_ := config, recorder, map[];
    }

    method RegisterRoute(uri: string, handlerName: string)
      requires recorder.Valid()
      modifies this, recorder`prefix_handler_list_, recorder`log
      ensures recorder.Valid()
      ensures route_map_ == Register(old(route_map_), [Route(uri, handlerName)])
      ensures recorder.prefix_handler_list_ ==
              old(recorder.prefix_handler_list_) + Recorded(old(route_map_), [Route(uri, handlerName)])
    {
      var h := Route(uri, handlerName);
      assert Front([h]) == [] && Back([h]) == h;
      assert old(recorder.prefix_handler_list_) + [] == old(recorder.prefix_handler_list_);
      if uri !in route_map_ {
        recorder.PrefixRecorder(h);
        route_map_ := route_map_[uri := handlerName];
      }
    }

    /** Registers every location of every handler, in the order of the configuration. */
    method RegisterRoutesFromConfig()
      requires Routable(config_) && recorder.Valid()
      modifies this, recorder`prefix_handler_list_, recorder`log
      ensures recorder.Valid()
      ensures route_map_ == Register(old(route_map_), Routes(config_))
      ensures recorder.prefix_handler_list_ ==
              old(recorder.prefix_handler_list_) + Recorded(old(route_map_), Routes(config_))
    {
      hide Routes, Locations, Register, Recorded;
      ghost var m, list := route_map_, recorder.prefix_handler_list_;
      NothingRegistered(m, list, config_);
      for i := 0 to |config_|
        invariant route_map_ == Register(m, Routes(config_[..i]))
        invariant recorder.Valid()
        invariant recorder.prefix_handler_list_ == list + Recorded(m, Routes(config_[..i]))
      {
        var statement := config_[i];
        RoutesUpTo(config_, i);
        if NamesHandler(statement) {
          var handlerKey := statement.tokens[1];
          RegisterMore(m, list, Routes(config_[..i]), Locations(handlerKey, statement.body));
          RegisterLocations(handlerKey, statement.body);
        }
      }
    }

    /** The inner loop, over the statements of one handler's block. */
    method RegisterLocations(handlerKey: string, body: seq<Stmt>)
      requires HasValues(body) && recorder.Valid()
      modifies this, recorder`prefix_handler_list_, recorder`log
      ensures recorder.Valid()
      ensures route_map_ == Register(old(route_map_), Locations(handlerKey, body))
      ensures recorder.prefix_handler_list_ ==
              old(recorder.prefix_handler_list_) + Recorded(old(route_map_), Locations(handlerKey, body))
    {
      hide Locations, Register, Recorded;
      ghost var m, list := route_map_, recorder.prefix_handler_list_;
      NothingLocated(m, list, handlerKey, body);
      for i := 0 to |body|
        invariant route_map_ == Register(m, Locations(handlerKey, body[..i]))
        invariant recorder.Valid()
        invariant recorder.prefix_handler_list_ == list + Recorded(m, Locations(handlerKey, body[..i]))
      {
        LocationsUpTo(handlerKey, body, i);
        if IsLocation(body[i]) {
          var uri := body[i].tokens[1];
          RegisterMore(m, list, Locations(handlerKey, body[..i]), [Route(uri, handlerKey)]);
          RegisterRoute(uri, handlerKey);
        }
      }
    }

    /** Walks the map in whatever order its keys come. */
    method LongestPrefixMatch(uri: string) returns (longest: string)
      ensures longest == LongestPrefix(route_map_, uri)
    {
      longest := "";
      var keys := route_map_.Keys;
      while keys != {}
        invariant keys <= route_map_.Keys
        invariant longest <= uri && (longest != "" ==> longest in route_map_)
        invariant forall k :: k in route_map_ && k !in keys && k <= uri ==> |k| <= |longest|
        decreases |keys|
      {
        var key: string :| key in keys;
        keys := keys - {key};
        if |uri| < |key| { continue; }
        var match_ := true;
        for i := 0 to |key|
          invariant match_ <==> key[..i] == uri[..i]
        {
          assert key[..i + 1] == key[..i] + [key[i]] && uri[..i + 1] == uri[..i] + [uri[i]];
          if key[i] != uri[i] { match_ := false; }
        }
        assert match_ <==> key <= uri by { assert key[..|key|] == key; }
        if match_ {
          longest := if |key| > |longest| then key else longest;
        }
      }
      LongestPrefixIff(route_map_, uri, longest);
    }

    method GetHandlerConfig(handlerName: string) returns (output: Option<seq<Stmt>>)
      requires forall i :: 0 <= i < |config_| && config_[i].Block? ==> config_[i].tokens != []
      ensures output == HandlerConfig(config_, handlerName)
    {
      output := None;
      assert config_[..0] == [];
      for i := 0 to |config_|
        invariant output == HandlerConfig(config_[..i], handlerName)
      {
        var statement := config_[i];
        assert Front(config_[..i + 1]) == config_[..i] && Back(config_[..i + 1]) == statement;
        if statement.Block? {
          if statement.tokens[0] == "handler" {
            if |statement.tokens| > 1 && statement.tokens[1] == handlerName {
              output := Some(statement.body);
            }
          }
        }
      }
      assert config_[..|config_|] == config_;
    }

    method GetRouteHandler(uri: string) returns (name: string)
      requires Routable(config_)
      ensures name == RouteHandler(route_map_, config_, uri)
    {
      if uri in route_map_ {
        return route_map_[uri];
      }
      var proxyConfig := GetHandlerConfig("proxy");
      HandlerConfigHasValues(config_, "proxy");
      if proxyConfig.None? { return "default"; }
      var valid := IsValidProxy(proxyConfig.value, uri);
      return if valid then "proxy" else "default";
    }

    method IsValidProxy(body: seq<Stmt>, name: string) returns (valid: bool)
      requires HasValues(body)
      ensures valid <==> ValidProxy(body, name)
    {
      for i := 0 to |body|
        invariant forall j :: 0 <= j < i ==> !(IsLocation(body[j]) && body[j].tokens[1] == name)
      {
        if body[i].tokens[0] == "location" && body[i].tokens[1] == name { return true; }
      }
      return false;
    }

    method SelectHandler(uri: string) returns (r: Selected)
      requires Routable(config_)
      ensures r == SelectedFor(config_, RouteHandler(route_map_, config_, LongestPrefix(route_map_, uri)))
    {
      var route := LongestPrefixMatch(uri);
      var handler := GetRouteHandler(route);
      var config;
      if handler == "echo" {
        config := GetHandlerConfig("echo");
        return Selected(Echo, config);
      } else if handler == "static1" || handler == "static2" || handler == "webMeme" || handler == "imageMeme" {
        config := GetHandlerConfig(handler);
        return Selected(StaticFile, config);
      } else if handler == "status" {
        config := GetHandlerConfig("status");
        return Selected(Status, config);
      } else if handler == "proxy" {
        config := GetHandlerConfig("proxy");
        return Selected(ReverseProxy, config);
      } else if handler == "meme" {
        config := GetHandlerConfig("meme");
        return Selected(Meme, config);
      } else if handler == "health" {
        config := GetHandlerConfig("health");
        return Selected(Health, config);
      } else {
        config := GetHandlerConfig("default");
        return Selected(Default, config);
      }
    }
  }
}
