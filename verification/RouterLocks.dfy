/** The mutexes of the router, its handlers and the status recorder, the order in which request
    threads take them, and the accesses to what they guard. The branches of the code are choices made
    beforehand. */
module RouterLocks {
  import opened Text

  /** `Own(t)`: the `config_lock_` of the handler object that thread `t` created for its request. */
  datatype Lock = Log | RouteMap | Config | Header | Requests | Prefixes | Own(thread: nat)

  /** `Use` is an access to the data that a lock guards; nothing but the program keeps a thread from it. */
  datatype Op = Acquire(lock: Lock) | Release(lock: Lock) | Use(lock: Lock)

  /** The order in which requests take locks, and that in which registration does. */
  datatype Order = RequestOrder | RegistrationOrder

  /** A thread may take a lock only above those it holds. */
  function Rank(o: Order, l: Lock): nat {
    match l
    case Log => 0
    case RouteMap => if o.RequestOrder? then 1 else 2
    case Config => if o.RequestOrder? then 2 else 1
    case Header => 3
    case Requests => 4
    case Prefixes => 5
    case Own(_) => 6
  }

  // ----- what each function does with locks -----

  function Guarded(l: Lock, inside: seq<Op>): seq<Op> {
    [Acquire(l), Use(l)] + inside + [Release(l)]
  }

  const LONGEST_PREFIX_MATCH := Guarded(RouteMap, [])
  const GET_HANDLER_CONFIG := Guarded(Config, [])
  const REQUEST_RECORDER := Guarded(Requests, [])
  const APPLY_DEFAULT_HEADERS := Guarded(Header, [])

  /** A URI that is not in the map is looked up among the proxies, with the map still locked. */
  function GetRouteHandler(found: bool): seq<Op> {
    Guarded(RouteMap, if found then [] else GET_HANDLER_CONFIG)
  }

  /** The choices of one request: whether its URI has a route, at each of the two look-ups; which
      handler serves it; and whether that handler throws. */
  datatype Choices = Choices(found: bool, handler: Handler, throws: bool, foundAgain: bool)

  /** Handlers by their locking: those that read their own configuration under its lock, the status
      page, and the others. */
  datatype Handler = Configured | Status | Other

  function CreateHandler(t: nat, h: Handler): seq<Op> {
    if h.Configured? then Guarded(Own(t), []) else []
  }

  function SelectHandler(t: nat, c: Choices): seq<Op> {
    LONGEST_PREFIX_MATCH + GetRouteHandler(c.found) + GET_HANDLER_CONFIG + CreateHandler(t, c.handler)
  }

  function HandleRequest(h: Handler): seq<Op> {
    if h.Status? then Guarded(Requests, []) + Guarded(Requests, []) + Guarded(Prefixes, []) else []
  }

  function RouteRequest(t: nat, c: Choices): seq<Op> {
    SelectHandler(t, c) + HandleRequest(c.handler)
    + if c.throws then [] else
        REQUEST_RECORDER
        + Guarded(Log, LONGEST_PREFIX_MATCH + GetRouteHandler(c.foundAgain))
        + APPLY_DEFAULT_HEADERS
  }

  /** The requests that one thread serves, one after the other. */
  function ServeAll(t: nat, cs: seq<Choices>): seq<Op> {
    if cs == [] then [] else RouteRequest(t, cs[0]) + ServeAll(t, cs[1..])
  }

  /** At some look-up the URI has no route, so the configuration is searched for a proxy. */
  predicate SearchesProxy(c: Choices) {
    !c.found || (!c.throws && !c.foundAgain)
  }

  function RegisterRoute(isNew: bool): seq<Op> {
    Guarded(RouteMap, if isNew then Guarded(Prefixes, []) else [])
  }

  function RegisterRoutes(isNew: seq<bool>): seq<Op> {
    if isNew == [] then [] else RegisterRoute(isNew[0]) + RegisterRoutes(isNew[1..])
  }

  function RegisterRoutesFromConfig(isNew: seq<bool>): seq<Op> {
    Guarded(Config, RegisterRoutes(isNew))
  }

  // ----- threads and mutexes -----

  /** What each thread has still to do, and which thread owns each locked mutex. */
  datatype State = State(rest: seq<seq<Op>>, owner: map<Lock, nat>)

  /** A thread can step unless it has finished or waits for a mutex. */
  predicate CanStep(s: State, i: nat) {
    && i < |s.rest| && s.rest[i] != []
    && match s.rest[i][0]
       case Acquire(l) => l !in s.owner
       case Release(l) => l in s.owner && s.owner[l] == i
       case Use(_) => true
  }

  function Step(s: State, i: nat): (r: State)
    requires CanStep(s, i)
    ensures |r.rest| == |s.rest|
  {
    State(s.rest[i := s.rest[i][1..]],
          match s.rest[i][0]
          case Acquire(l) => s.owner[l := i]
          case Release(l) => s.owner - {l}
          case Use(_) => s.owner)
  }

  /** The state after the threads step in the given order; None when one of them could not. */
  function Run(s: State, schedule: seq<nat>): (r: Option<State>)
    ensures r.Some? ==> |r.value.rest| == |s.rest|
    decreases schedule
  {
    if schedule == [] then Some(s)
    else if CanStep(s, schedule[0]) then Run(Step(s, schedule[0]), schedule[1..])
    else None
  }

  function Start(programs: seq<seq<Op>>): State {
    State(programs, map[])
  }

  // ----- the order of locks -----

  predicate Above(o: Order, l: Lock, held: set<Lock>) {
    forall h :: h in held ==> Rank(o, h) < Rank(o, l)
  }

  /** The locks held after a program that starts with `held`, or None if it takes a lock that is not
      above all it holds, or releases one or uses its data without holding it. */
  function Locked(o: Order, program: seq<Op>, held: set<Lock>): Option<set<Lock>>
    decreases program
  {
    if program == [] then Some(held)
    else
      match program[0]
      case Acquire(l) => if Above(o, l, held) then Locked(o, program[1..], held + {l}) else None
      case Release(l) => if l in held then Locked(o, program[1..], held - {l}) else None
      case Use(l) => if l in held then Locked(o, program[1..], held) else None
  }

  /** The rest of a thread takes locks upwards only and ends up holding none. */
  predicate Ordered(o: Order, program: seq<Op>, held: set<Lock>) {
    Locked(o, program, held) == Some({})
  }

  function HeldBy(s: State, i: nat): set<Lock> {
    set l | l in s.owner && s.owner[l] == i
  }

  predicate AllOrdered(o: Order, s: State) {
    && (forall i :: 0 <= i < |s.rest| ==> Ordered(o, s.rest[i], HeldBy(s, i)))
    && (forall l :: l in s.owner ==> s.owner[l] < |s.rest|)
  }

  lemma StepKeepsOrder(o: Order, s: State, i: nat)
    requires AllOrdered(o, s) && CanStep(s, i)
    ensures AllOrdered(o, Step(s, i))
  {
    var t := Step(s, i);
    forall j | 0 <= j < |t.rest|
      ensures Ordered(o, t.rest[j], HeldBy(t, j))
    {
      assert Ordered(o, s.rest[j], HeldBy(s, j));
      match s.rest[i][0]
      case Acquire(l) =>
        assert HeldBy(t, j) == if j == i then HeldBy(s, i) + {l} else HeldBy(s, j);
      case Release(l) =>
        assert HeldBy(t, j) == if j == i then HeldBy(s, i) - {l} else HeldBy(s, j);
      case Use(_) =>
        assert HeldBy(t, j) == HeldBy(s, j);
    }
  }

  lemma {:induction false} RunKeepsOrder(o: Order, s: State, schedule: seq<nat>)
    requires AllOrdered(o, s) && Run(s, schedule).Some?
    ensures AllOrdered(o, Run(s, schedule).value)
    decreases schedule
  {
    if schedule != [] {
      StepKeepsOrder(o, s, schedule[0]);
      RunKeepsOrder(o, Step(s, schedule[0]), schedule[1..]);
    }
  }

  lemma {:induction false} HighestLock(o: Order, locks: set<Lock>) returns (top: Lock)
    requires locks != {}
    ensures top in locks && forall l :: l in locks ==> Rank(o, l) <= Rank(o, top)
    decreases |locks|
  {
    top :| top in locks;
    var others := locks - {top};
    if others != {} {
      var next := HighestLock(o, others);
      if Rank(o, top) < Rank(o, next) { top := next; }
      assert forall l :: l in locks ==> l in others || Rank(o, l) <= Rank(o, top);
    } else {
      assert locks == others + {top};
    }
  }

  /** The thread that owns the highest locked mutex can step. */
  lemma SomeThreadCanStep(o: Order, s: State, i: nat) returns (j: nat)
    requires AllOrdered(o, s) && i < |s.rest| && s.rest[i] != []
    ensures CanStep(s, j)
  {
    if s.owner.Keys == {} {
      j := i;
      assert HeldBy(s, i) == {};
    } else {
      var top := HighestLock(o, s.owner.Keys);
      j := s.owner[top];
      assert top in HeldBy(s, j);
      assert Ordered(o, s.rest[j], HeldBy(s, j));
    }
  }

  // ----- the programs take locks in order -----

  lemma {:induction false} LockedConcat(o: Order, a: seq<Op>, b: seq<Op>, held: set<Lock>)
    ensures Locked(o, a + b, held) ==
            match Locked(o, a, held) case None => None case Some(h) => Locked(o, b, h)
    decreases a
  {
    if a == [] {
      assert a + b == b;
    } else {
      assert (a + b)[1..] == a[1..] + b;
      match a[0]
      case Acquire(l) => LockedConcat(o, a[1..], b, held + {l});
      case Release(l) => LockedConcat(o, a[1..], b, held - {l});
      case Use(_) => LockedConcat(o, a[1..], b, held);
    }
  }

  /** A program that holds again what it held before. */
  predicate Neutral(o: Order, program: seq<Op>, held: set<Lock>) {
    Locked(o, program, held) == Some(held)
  }

  lemma NeutralConcat(o: Order, a: seq<Op>, b: seq<Op>, held: set<Lock>)
    requires Neutral(o, a, held) && Neutral(o, b, held)
    ensures Neutral(o, a + b, held)
  {
    LockedConcat(o, a, b, held);
  }

  lemma NeutralGuarded(o: Order, l: Lock, inside: seq<Op>, held: set<Lock>)
    requires Above(o, l, held) && Neutral(o, inside, held + {l})
    ensures Neutral(o, Guarded(l, inside), held)
  {
    LockedConcat(o, [Acquire(l), Use(l)] + inside, [Release(l)], held);
    LockedConcat(o, [Acquire(l), Use(l)], inside, held);
    assert [Acquire(l), Use(l)][1..] == [Use(l)] && [Use(l)][1..] == [] && [Release(l)][1..] == [];
    assert held + {l} - {l} == held;
  }

  lemma NeutralNothing(o: Order, held: set<Lock>)
    ensures Neutral(o, [], held)
  {
  }

  lemma NeutralAlone(o: Order, l: Lock, held: set<Lock>)
    requires Above(o, l, held)
    ensures Neutral(o, Guarded(l, []), held)
  {
    NeutralNothing(o, held + {l});
    NeutralGuarded(o, l, [], held);
  }

  lemma LookUpIsNeutral(o: Order, found: bool, held: set<Lock>)
    requires held <= {Log} && (found || o.RequestOrder?)
    ensures Neutral(o, LONGEST_PREFIX_MATCH, held) && Neutral(o, GetRouteHandler(found), held)
    ensures Neutral(o, LONGEST_PREFIX_MATCH + GetRouteHandler(found), held)
  {
    NeutralAlone(o, RouteMap, held);
    var inside := if found then [] else GET_HANDLER_CONFIG;
    NeutralNothing(o, held + {RouteMap});
    if !found {
      NeutralAlone(o, Config, held + {RouteMap});
    }
    NeutralGuarded(o, RouteMap, inside, held);
    NeutralConcat(o, LONGEST_PREFIX_MATCH, GetRouteHandler(found), held);
  }

  lemma SelectIsNeutral(o: Order, t: nat, c: Choices)
    requires c.found || o.RequestOrder?
    ensures Neutral(o, SelectHandler(t, c), {})
  {
    LookUpIsNeutral(o, c.found, {});
    NeutralAlone(o, Config, {});
    NeutralAlone(o, Own(t), {});
    NeutralNothing(o, {});
    hide Neutral, Guarded, GetRouteHandler;
    NeutralConcat(o, LONGEST_PREFIX_MATCH + GetRouteHandler(c.found), GET_HANDLER_CONFIG, {});
    NeutralConcat(o, LONGEST_PREFIX_MATCH + GetRouteHandler(c.found) + GET_HANDLER_CONFIG,
                  CreateHandler(t, c.handler), {});
  }

  lemma HandleIsNeutral(o: Order, h: Handler)
    ensures Neutral(o, HandleRequest(h), {})
  {
    NeutralAlone(o, Requests, {});
    NeutralAlone(o, Prefixes, {});
    NeutralNothing(o, {});
    hide Neutral, Guarded;
    NeutralConcat(o, Guarded(Requests, []), Guarded(Requests, []), {});
    NeutralConcat(o, Guarded(Requests, []) + Guarded(Requests, []), Guarded(Prefixes, []), {});
  }

  lemma ReportIsNeutral(o: Order, c: Choices)
    requires c.foundAgain || o.RequestOrder?
    ensures Neutral(o, REQUEST_RECORDER + Guarded(Log, LONGEST_PREFIX_MATCH + GetRouteHandler(c.foundAgain))
                    + APPLY_DEFAULT_HEADERS, {})
  {
    var look := LONGEST_PREFIX_MATCH + GetRouteHandler(c.foundAgain);
    NeutralAlone(o, Requests, {});
    NeutralAlone(o, Header, {});
    assert {} + {Log} == {Log};
    LookUpIsNeutral(o, c.foundAgain, {Log});
    NeutralGuarded(o, Log, look, {});
    hide Neutral, Guarded, GetRouteHandler;
    NeutralConcat(o, REQUEST_RECORDER, Guarded(Log, look), {});
    NeutralConcat(o, REQUEST_RECORDER + Guarded(Log, look), APPLY_DEFAULT_HEADERS, {});
  }

  /** Whatever branches a request takes, it takes its locks in order and releases them all; unless it
      searches the proxies, in the order of registration too. */
  lemma RequestIsNeutral(o: Order, t: nat, c: Choices)
    requires o.RequestOrder? || !SearchesProxy(c)
    ensures Neutral(o, RouteRequest(t, c), {})
  {
    SelectIsNeutral(o, t, c);
    HandleIsNeutral(o, c.handler);
    if !c.throws { ReportIsNeutral(o, c); }
    NeutralNothing(o, {});
    hide Locked, Guarded, GetRouteHandler, SelectHandler, HandleRequest;
    NeutralConcat(o, SelectHandler(t, c), HandleRequest(c.handler), {});
    var report := if c.throws then [] else
                    REQUEST_RECORDER
                    + Guarded(Log, LONGEST_PREFIX_MATCH + GetRouteHandler(c.foundAgain))
                    + APPLY_DEFAULT_HEADERS;
    NeutralConcat(o, SelectHandler(t, c) + HandleRequest(c.handler), report, {});
  }

  lemma {:induction false} RequestsAreNeutral(o: Order, t: nat, cs: seq<Choices>)
    requires o.RequestOrder? || forall k :: 0 <= k < |cs| ==> !SearchesProxy(cs[k])
    ensures Neutral(o, ServeAll(t, cs), {})
  {
    if cs == [] {
      NeutralNothing(o, {});
    } else {
      RequestIsNeutral(o, t, cs[0]);
      assert forall k :: 0 <= k < |cs[1..]| ==> cs[1..][k] == cs[k + 1];
      RequestsAreNeutral(o, t, cs[1..]);
      NeutralConcat(o, RouteRequest(t, cs[0]), ServeAll(t, cs[1..]), {});
    }
  }

  // ----- the main results -----

  /** Threads that serve requests, each any number of them in sequence: registration has finished, as
      it has before the server accepts any. */
  function Serving(choices: seq<seq<Choices>>): seq<seq<Op>> {
    seq(|choices|, t requires 0 <= t < |choices| => ServeAll(t, choices[t]))
  }

  lemma ServingIsOrdered(choices: seq<seq<Choices>>)
    ensures AllOrdered(RequestOrder, Start(Serving(choices)))
  {
    forall t | 0 <= t < |choices|
      ensures Ordered(RequestOrder, Serving(choices)[t], {})
    {
      RequestsAreNeutral(RequestOrder, t, choices[t]);
    }
    assert forall t :: HeldBy(Start(Serving(choices)), t) == {};
  }

  /** However any number of requests interleave, none ever asks for a mutex that it holds. */
  lemma NoRequestLocksTwice(choices: seq<seq<Choices>>, schedule: seq<nat>, i: nat)
    requires Run(Start(Serving(choices)), schedule).Some?
    ensures var s := Run(Start(Serving(choices)), schedule).value;
            i < |s.rest| && s.rest[i] != [] && s.rest[i][0].Acquire? ==>
              var l := s.rest[i][0].lock; !(l in s.owner && s.owner[l] == i)
  {
    ServingIsOrdered(choices);
    RunKeepsOrder(RequestOrder, Start(Serving(choices)), schedule);
    var s := Run(Start(Serving(choices)), schedule).value;
    if i < |s.rest| && s.rest[i] != [] && s.rest[i][0].Acquire? {
      var l := s.rest[i][0].lock;
      assert Ordered(RequestOrder, s.rest[i], HeldBy(s, i));
      assert Above(RequestOrder, l, HeldBy(s, i));
      assert l !in HeldBy(s, i);
    }
  }

  /** However any number of requests interleave, whoever is about to use the data that a lock guards owns
      that lock; so no two threads are ever about to use the same data. */
  lemma RequestsNeverRace(choices: seq<seq<Choices>>, schedule: seq<nat>, i: nat, j: nat)
    requires Run(Start(Serving(choices)), schedule).Some?
    ensures var s := Run(Start(Serving(choices)), schedule).value;
            i < |s.rest| && s.rest[i] != [] && s.rest[i][0].Use? ==>
              var l := s.rest[i][0].lock;
              && l in s.owner && s.owner[l] == i
              && (j < |s.rest| && s.rest[j] != [] && s.rest[j][0] == Use(l) ==> j == i)
  {
    ServingIsOrdered(choices);
    OrderedThreadsNeverRace(RequestOrder, Serving(choices), schedule, i);
    OrderedThreadsNeverRace(RequestOrder, Serving(choices), schedule, j);
  }

  lemma OrderedThreadsNeverRace(o: Order, programs: seq<seq<Op>>, schedule: seq<nat>, i: nat)
    requires AllOrdered(o, Start(programs)) && Run(Start(programs), schedule).Some?
    ensures var s := Run(Start(programs), schedule).value;
            i < |s.rest| && s.rest[i] != [] && s.rest[i][0].Use? ==>
              s.rest[i][0].lock in s.owner && s.owner[s.rest[i][0].lock] == i
  {
    RunKeepsOrder(o, Start(programs), schedule);
    var s := Run(Start(programs), schedule).value;
    if i < |s.rest| && s.rest[i] != [] && s.rest[i][0].Use? {
      assert Ordered(o, s.rest[i], HeldBy(s, i));
      assert s.rest[i][0].lock in HeldBy(s, i);
    }
  }

  /** Some thread is unfinished and none can step. */
  predicate Stuck(s: State) {
    (exists i :: 0 <= i < |s.rest| && s.rest[i] != []) && forall j :: 0 <= j < |s.rest| ==> !CanStep(s, j)
  }

  lemma OrderedThreadsAreNeverStuck(o: Order, programs: seq<seq<Op>>, schedule: seq<nat>)
    requires AllOrdered(o, Start(programs)) && Run(Start(programs), schedule).Some?
    ensures !Stuck(Run(Start(programs), schedule).value)
  {
    RunKeepsOrder(o, Start(programs), schedule);
    var s := Run(Start(programs), schedule).value;
    if i: nat :| i < |s.rest| && s.rest[i] != [] {
      var j := SomeThreadCanStep(o, s, i);
    }
  }

  /** However any number of requests interleave, as long as one is unfinished some thread can step. */
  lemma RequestsNeverDeadlock(choices: seq<seq<Choices>>, schedule: seq<nat>)
    requires Run(Start(Serving(choices)), schedule).Some?
    ensures !Stuck(Run(Start(Serving(choices)), schedule).value)
  {
    ServingIsOrdered(choices);
    OrderedThreadsAreNeverStuck(RequestOrder, Serving(choices), schedule);
  }

  function Left(rest: seq<seq<Op>>): nat {
    if rest == [] then 0 else |rest[0]| + Left(rest[1..])
  }

  lemma {:induction false} LeftDrops(rest: seq<seq<Op>>, i: nat)
    requires i < |rest| && rest[i] != []
    ensures Left(rest[i := rest[i][1..]]) == Left(rest) - 1
  {
    if i == 0 {
      assert rest[i := rest[i][1..]][1..] == rest[1..];
    } else {
      assert rest[i := rest[i][1..]][1..] == rest[1..][i - 1 := rest[1..][i - 1][1..]];
      LeftDrops(rest[1..], i - 1);
    }
  }

  /** Every step uses up one operation, so no run is longer than the programs together. */
  lemma {:induction false} RunsEnd(s: State, schedule: seq<nat>)
    requires Run(s, schedule).Some?
    ensures Left(Run(s, schedule).value.rest) + |schedule| == Left(s.rest)
    decreases schedule
  {
    if schedule != [] {
      LeftDrops(s.rest, schedule[0]);
      RunsEnd(Step(s, schedule[0]), schedule[1..]);
    }
  }

  /** From wherever ordered threads have got to, all of them can still finish. */
  lemma {:induction false} AllCanFinish(o: Order, s: State) returns (schedule: seq<nat>)
    requires AllOrdered(o, s)
    ensures Run(s, schedule).Some?
    ensures forall i :: 0 <= i < |s.rest| ==> Run(s, schedule).value.rest[i] == []
    decreases Left(s.rest)
  {
    if i: nat :| i < |s.rest| && s.rest[i] != [] {
      var j := SomeThreadCanStep(o, s, i);
      StepKeepsOrder(o, s, j);
      LeftDrops(s.rest, j);
      var more := AllCanFinish(o, Step(s, j));
      schedule := [j] + more;
      assert schedule[1..] == more;
    } else {
      schedule := [];
    }
  }
}
