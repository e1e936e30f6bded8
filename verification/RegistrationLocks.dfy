/** Registration running beside requests: it takes the configuration's lock before the route map's,
    the reverse of what requests do, and exactly when it can get stuck. */
module RegistrationLocks {
  import opened Text
  import opened RouterLocks

  /** Thread 0 registers routes, `isNew` saying which of them are new; the others serve requests. */
  function Beside(isNew: seq<bool>, choices: seq<seq<Choices>>): seq<seq<Op>> {
    [RegisterRoutesFromConfig(isNew)]
    + seq(|choices|, t requires 0 <= t < |choices| => ServeAll(t + 1, choices[t]))
  }

  /** There is something to register, and some request searches the proxies. */
  predicate Clashes(isNew: seq<bool>, choices: seq<seq<Choices>>) {
    isNew != [] && exists t, k :: 0 <= t < |choices| && 0 <= k < |choices[t]| && SearchesProxy(choices[t][k])
  }

  ghost predicate CanGetStuck(programs: seq<seq<Op>>) {
    exists schedule: seq<nat> :: GetsStuck(programs, schedule)
  }

  predicate GetsStuck(programs: seq<seq<Op>>, schedule: seq<nat>) {
    var r := Run(Start(programs), schedule);
    r.Some? && Stuck(r.value)
  }

  // ----- when nothing can go wrong -----

  lemma {:induction false} RegisterRoutesIsNeutral(isNew: seq<bool>)
    ensures Neutral(RegistrationOrder, RegisterRoutes(isNew), {Config})
  {
    var o := RegistrationOrder;
    NeutralNothing(o, {Config});
    if isNew != [] {
      var inside := if isNew[0] then Guarded(Prefixes, []) else [];
      NeutralNothing(o, {Config} + {RouteMap});
      NeutralAlone(o, Prefixes, {Config} + {RouteMap});
      NeutralGuarded(o, RouteMap, inside, {Config});
      RegisterRoutesIsNeutral(isNew[1..]);
      NeutralConcat(o, RegisterRoute(isNew[0]), RegisterRoutes(isNew[1..]), {Config});
    }
  }

  lemma RegistrationIsNeutral(o: Order, isNew: seq<bool>)
    requires isNew == [] || o.RegistrationOrder?
    ensures Neutral(o, RegisterRoutesFromConfig(isNew), {})
  {
    assert {} + {Config} == {Config};
    if isNew == [] {
      NeutralAlone(o, Config, {});
    } else {
      RegisterRoutesIsNeutral(isNew);
      NeutralGuarded(o, Config, RegisterRoutes(isNew), {});
    }
  }

  lemma NoClashIsOrdered(isNew: seq<bool>, choices: seq<seq<Choices>>)
    requires !Clashes(isNew, choices)
    ensures AllOrdered(if isNew == [] then RequestOrder else RegistrationOrder, Start(Beside(isNew, choices)))
  {
    var o := if isNew == [] then RequestOrder else RegistrationOrder;
    var programs := Beside(isNew, choices);
    forall i | 0 <= i < |programs|
      ensures Ordered(o, programs[i], {})
    {
      if i == 0 {
        RegistrationIsNeutral(o, isNew);
      } else {
        RequestsAreNeutral(o, i, choices[i - 1]);
      }
    }
    assert forall i :: HeldBy(Start(programs), i) == {};
  }

  // ----- the clash -----

  function Times(n: nat, t: nat): seq<nat> {
    if n == 0 then [] else [t] + Times(n - 1, t)
  }

  function Owned(held: set<Lock>, t: nat): map<Lock, nat> {
    map l | l in held :: t
  }

  /** A thread that runs while no other holds a lock gets through any ordered part of its program. */
  lemma {:induction false} RunAlone(s: State, t: nat, a: seq<Op>, b: seq<Op>, before: set<Lock>, after: set<Lock>)
    requires t < |s.rest| && s.rest[t] == a + b && s.owner == Owned(before, t)
    requires Locked(RequestOrder, a, before) == Some(after)
    ensures Run(s, Times(|a|, t)) == Some(State(s.rest[t := b], Owned(after, t)))
    decreases a
  {
    if a == [] {
      assert a + b == b;
      assert s.rest[t := b] == s.rest;
    } else {
      assert (a + b)[1..] == a[1..] + b;
      var next := match a[0]
        case Acquire(l) => before + {l}
        case Release(l) => before - {l}
        case Use(_) => before;
      assert CanStep(s, t) by {
        if a[0].Acquire? { assert Above(RequestOrder, a[0].lock, before); }
      }
      var u := Step(s, t);
      assert u.owner == Owned(next, t);
      RunAlone(u, t, a[1..], b, next, after);
      assert u.rest[t := b] == s.rest[t := b];
      assert Times(|a|, t)[1..] == Times(|a| - 1, t);
    }
  }

  lemma {:induction false} RunConcat(s: State, a: seq<nat>, b: seq<nat>)
    requires Run(s, a).Some?
    ensures Run(s, a + b) == Run(Run(s, a).value, b)
    decreases a
  {
    if a == [] {
      assert a + b == b;
    } else {
      assert (a + b)[1..] == a[1..] + b;
      RunConcat(Step(s, a[0]), a[1..], b);
    }
  }

  /** Where a program holds the route map's lock, not the configuration's, and asks for that next. */
  predicate WantsConfig(program: seq<Op>, a: seq<Op>, b: seq<Op>) {
    && program == a + ([Acquire(Config)] + b)
    && var held := Locked(RequestOrder, a, {});
       held.Some? && RouteMap in held.value && Config !in held.value
  }

  lemma PutInFront(front: seq<Op>, program: seq<Op>, a: seq<Op>, b: seq<Op>)
    requires Neutral(RequestOrder, front, {}) && WantsConfig(program, a, b)
    ensures WantsConfig(front + program, front + a, b)
  {
    LockedConcat(RequestOrder, front, a, {});
    Concatenation(front, a, [Acquire(Config)] + b);
  }

  lemma PutBehind(program: seq<Op>, back: seq<Op>, a: seq<Op>, b: seq<Op>)
    requires WantsConfig(program, a, b)
    ensures WantsConfig(program + back, a, b + back)
  {
    Concatenation(a, [Acquire(Config)] + b, back);
    Concatenation([Acquire(Config)], b, back);
  }

  /** A look-up of a URI without a route asks for the configuration with the route map locked. */
  lemma LookUpWantsConfig(held: set<Lock>)
    requires held <= {Log}
    ensures GetRouteHandler(false) ==
            [Acquire(RouteMap), Use(RouteMap)]
            + ([Acquire(Config)] + [Use(Config), Release(Config), Release(RouteMap)])
    ensures Locked(RequestOrder, [Acquire(RouteMap), Use(RouteMap)], held) == Some(held + {RouteMap})
  {
    assert [Acquire(RouteMap), Use(RouteMap)][1..] == [Use(RouteMap)] && [Use(RouteMap)][1..] == [];
  }

  lemma LookUpProgram(held: set<Lock>) returns (a: seq<Op>, b: seq<Op>)
    requires held <= {Log}
    ensures LONGEST_PREFIX_MATCH + GetRouteHandler(false) == a + ([Acquire(Config)] + b)
    ensures Locked(RequestOrder, a, held) == Some(held + {RouteMap})
  {
    LookUpIsNeutral(RequestOrder, true, held);
    LookUpWantsConfig(held);
    var taken := [Acquire(RouteMap), Use(RouteMap)];
    a, b := LONGEST_PREFIX_MATCH + taken, [Use(Config), Release(Config), Release(RouteMap)];
    LockedConcat(RequestOrder, LONGEST_PREFIX_MATCH, taken, held);
    Concatenation(LONGEST_PREFIX_MATCH, taken, [Acquire(Config)] + b);
  }

  lemma Behind(a: seq<Op>, b: seq<Op>, c: seq<Op>, d: seq<Op>, e: seq<Op>)
    ensures a + b + c + d + e == a + (b + c + d + e)
  {
  }

  /** What a request does after its first look-up. */
  function AfterLookUp(t: nat, c: Choices): seq<Op> {
    GET_HANDLER_CONFIG + CreateHandler(t, c.handler) + HandleRequest(c.handler)
    + if c.throws then [] else
        REQUEST_RECORDER
        + Guarded(Log, LONGEST_PREFIX_MATCH + GetRouteHandler(c.foundAgain))
        + APPLY_DEFAULT_HEADERS
  }

  lemma RequestIs(t: nat, c: Choices)
    ensures RouteRequest(t, c) == (LONGEST_PREFIX_MATCH + GetRouteHandler(c.found)) + AfterLookUp(t, c)
  {
    hide Guarded, GetRouteHandler, CreateHandler, HandleRequest;
    Behind(LONGEST_PREFIX_MATCH + GetRouteHandler(c.found), GET_HANDLER_CONFIG, CreateHandler(t, c.handler),
           HandleRequest(c.handler),
           if c.throws then [] else
             REQUEST_RECORDER
             + Guarded(Log, LONGEST_PREFIX_MATCH + GetRouteHandler(c.foundAgain))
             + APPLY_DEFAULT_HEADERS);
  }

  lemma FirstLookUpWantsConfig(t: nat, c: Choices) returns (a: seq<Op>, b: seq<Op>)
    requires !c.found
    ensures WantsConfig(RouteRequest(t, c), a, b)
  {
    var look := LONGEST_PREFIX_MATCH + GetRouteHandler(false);
    a, b := LookUpProgram({});
    assert {} + {RouteMap} == {RouteMap};
    assert WantsConfig(look, a, b);
    hide *;
    RequestIs(t, c);
    PutBehind(look, AfterLookUp(t, c), a, b);
    b := b + AfterLookUp(t, c);
  }

  lemma Regroup(x: seq<Op>, y: seq<Op>, z: seq<Op>, look: seq<Op>, l: seq<Op>, m: Op, end: seq<Op>)
    ensures x + y + (z + (l + look + [m]) + end) == (x + y + z) + ((l + look) + ([m] + end))
  {
  }

  /** What a request does that gets as far as the log: up to the log's lock, under it, and after. */
  lemma LoggedRequest(t: nat, c: Choices)
    requires !c.throws
    ensures RouteRequest(t, c) ==
            (SelectHandler(t, c) + HandleRequest(c.handler) + REQUEST_RECORDER)
            + (([Acquire(Log), Use(Log)] + (LONGEST_PREFIX_MATCH + GetRouteHandler(c.foundAgain)))
               + ([Release(Log)] + APPLY_DEFAULT_HEADERS))
  {
    hide SelectHandler, HandleRequest, GetRouteHandler;
    Regroup(SelectHandler(t, c), HandleRequest(c.handler), REQUEST_RECORDER,
            LONGEST_PREFIX_MATCH + GetRouteHandler(c.foundAgain), [Acquire(Log), Use(Log)], Release(Log),
            APPLY_DEFAULT_HEADERS);
  }

  lemma LogThenLookUp() returns (a: seq<Op>, b: seq<Op>)
    ensures WantsConfig([Acquire(Log), Use(Log)] + (LONGEST_PREFIX_MATCH + GetRouteHandler(false)), a, b)
  {
    var inner;
    var taken := [Acquire(Log), Use(Log)];
    inner, b := LookUpProgram({Log});
    LockedConcat(RequestOrder, taken, inner, {});
    assert taken[1..] == [Use(Log)] && [Use(Log)][1..] == [] && {} + {Log} == {Log};
    a := taken + inner;
    Concatenation(taken, inner, [Acquire(Config)] + b);
  }

  lemma SecondLookUpWantsConfig(t: nat, c: Choices) returns (a: seq<Op>, b: seq<Op>)
    requires !c.throws && !c.foundAgain
    ensures WantsConfig(RouteRequest(t, c), a, b)
  {
    SelectIsNeutral(RequestOrder, t, c);
    HandleIsNeutral(RequestOrder, c.handler);
    NeutralAlone(RequestOrder, Requests, {});
    hide *;
    a, b := LogThenLookUp();
    var look := [Acquire(Log), Use(Log)] + (LONGEST_PREFIX_MATCH + GetRouteHandler(false));
    var end := [Release(Log)] + APPLY_DEFAULT_HEADERS;
    PutBehind(look, end, a, b);
    b := b + end;
    var front := SelectHandler(t, c) + HandleRequest(c.handler);
    NeutralConcat(RequestOrder, SelectHandler(t, c), HandleRequest(c.handler), {});
    NeutralConcat(RequestOrder, front, REQUEST_RECORDER, {});
    PutInFront(front + REQUEST_RECORDER, look + end, a, b);
    a := front + REQUEST_RECORDER + a;
    LoggedRequest(t, c);
  }

  lemma {:induction false} RequestsWantConfig(t: nat, cs: seq<Choices>, k: nat) returns (a: seq<Op>, b: seq<Op>)
    requires k < |cs| && SearchesProxy(cs[k])
    ensures WantsConfig(ServeAll(t, cs), a, b)
    decreases k
  {
    if k == 0 {
      if !cs[0].found {
        a, b := FirstLookUpWantsConfig(t, cs[0]);
      } else {
        a, b := SecondLookUpWantsConfig(t, cs[0]);
      }
      PutBehind(RouteRequest(t, cs[0]), ServeAll(t, cs[1..]), a, b);
      b := b + ServeAll(t, cs[1..]);
    } else {
      a, b := RequestsWantConfig(t, cs[1..], k - 1);
      RequestIsNeutral(RequestOrder, t, cs[0]);
      PutInFront(RouteRequest(t, cs[0]), ServeAll(t, cs[1..]), a, b);
      a := RouteRequest(t, cs[0]) + a;
    }
  }

  /** Registration waits for the route map, which thread `t` holds while it waits for the
      configuration, which registration holds. */
  predicate Blocked(s: State, t: nat) {
    && 0 < t < |s.rest|
    && s.rest[0] != [] && s.rest[0][0] == Acquire(RouteMap) && RouteMap in s.owner && s.owner[RouteMap] == t
    && s.rest[t] != [] && s.rest[t][0] == Acquire(Config) && Config in s.owner && s.owner[Config] == 0
  }

  /** Whatever the other threads do, two that block each other never step again; once the others can
      do nothing more, all is stuck. */
  lemma {:induction false} BlockedGetsStuck(s: State, t: nat) returns (schedule: seq<nat>)
    requires Blocked(s, t)
    ensures Run(s, schedule).Some? && Stuck(Run(s, schedule).value)
    decreases Left(s.rest)
  {
    if j: nat :| j < |s.rest| && CanStep(s, j) {
      assert Blocked(Step(s, j), t);
      LeftDrops(s.rest, j);
      var more := BlockedGetsStuck(Step(s, j), t);
      schedule := [j] + more;
      assert schedule[1..] == more;
    } else {
      schedule := [];
    }
  }

  lemma RegistrationStart(isNew: seq<bool>)
    requires isNew != []
    ensures var p := RegisterRoutesFromConfig(isNew);
            |p| >= 3 && p[0] == Acquire(Config) && p[1] == Use(Config) && p[2] == Acquire(RouteMap)
  {
    assert RegisterRoute(isNew[0])[0] == Acquire(RouteMap);
    assert RegisterRoutes(isNew)[0] == Acquire(RouteMap);
  }

  /** Registration takes the configuration from a thread that wants it and holds the route map. */
  lemma TakesConfigFirst(rest: seq<seq<Op>>, t: nat, held: set<Lock>)
    requires 0 < t < |rest| && RouteMap in held && Config !in held
    requires |rest[0]| >= 3 && rest[0][0] == Acquire(Config) && rest[0][1] == Use(Config)
    requires rest[0][2] == Acquire(RouteMap)
    requires rest[t] != [] && rest[t][0] == Acquire(Config)
    ensures var s := State(rest, Owned(held, t)); Run(s, [0, 0]).Some? && Blocked(Run(s, [0, 0]).value, t)
  {
    var s := State(rest, Owned(held, t));
    var u := Step(s, 0);
    var v := Step(u, 0);
    assert [0, 0][1..] == [0] && [0][1..] == [] && Run(v, []) == Some(v);
    assert Run(s, [0, 0]) == Run(u, [0]) == Some(v);
  }

  lemma BesideAt(isNew: seq<bool>, choices: seq<seq<Choices>>, t: nat)
    requires t < |choices|
    ensures var programs := Beside(isNew, choices);
            && t + 1 < |programs| && programs[0] == RegisterRoutesFromConfig(isNew)
            && programs[t + 1] == ServeAll(t + 1, choices[t])
  {
  }

  /** The request runs up to where it wants the configuration, registration takes the
      configuration, and the two block each other. */
  lemma ClashGetsStuck(isNew: seq<bool>, choices: seq<seq<Choices>>, t: nat, k: nat)
    requires isNew != [] && t < |choices| && k < |choices[t]| && SearchesProxy(choices[t][k])
    ensures CanGetStuck(Beside(isNew, choices))
  {
    var programs := Beside(isNew, choices);
    var a, b := RequestsWantConfig(t + 1, choices[t], k);
    var held := Locked(RequestOrder, a, {}).value;
    var rest := [Acquire(Config)] + b;
    RegistrationStart(isNew);
    BesideAt(isNew, choices, t);
    assert Start(programs) == State(programs, Owned({}, t + 1));
    hide RegisterRoutesFromConfig, ServeAll, Locked, Beside, Stuck, Owned, Start, Run, Blocked;
    RunAlone(Start(programs), t + 1, a, rest, {}, held);
    TakesConfigFirst(programs[t + 1 := rest], t + 1, held);
    var first := Times(|a|, t + 1);
    RunConcat(Start(programs), first, [0, 0]);
    var more := BlockedGetsStuck(Run(Start(programs), first + [0, 0]).value, t + 1);
    RunConcat(Start(programs), first + [0, 0], more);
    assert GetsStuck(programs, first + [0, 0] + more);
  }

  /** Registration beside any number of requests can get stuck if and only if there is a route to
      register and some request searches the proxies. Without such a request all threads take their
      locks in one order, the order of registration. */
  lemma RegistrationGetsStuckIff(isNew: seq<bool>, choices: seq<seq<Choices>>)
    ensures CanGetStuck(Beside(isNew, choices)) <==> Clashes(isNew, choices)
  {
    var programs := Beside(isNew, choices);
    if Clashes(isNew, choices) {
      var t: nat, k: nat :| t < |choices| && k < |choices[t]| && SearchesProxy(choices[t][k]);
      ClashGetsStuck(isNew, choices, t, k);
    } else {
      NoClashIsOrdered(isNew, choices);
      forall schedule | Run(Start(programs), schedule).Some?
        ensures !Stuck(Run(Start(programs), schedule).value)
      {
        OrderedThreadsAreNeverStuck(if isNew == [] then RequestOrder else RegistrationOrder, programs, schedule);
      }
    }
  }
}
