/** What a log of requests' steps says should be stored, whatever the database looks like: each SQL
    statement is one atomic step, and viewing a meme takes two, a SELECT and later an UPDATE of the
    count, between which steps of other requests may come. */
module MemeHistory {
  import opened Text
  import opened UriCodec
  import opened FormBody
  import opened SqlText

  // ----- ids -----

  predicate IsHyphenPlace(i: int) {
    i == 8 || i == 13 || i == 18 || i == 23
  }

  /** `[0-9a-fA-F]{8}-[0-9a-fA-F]{4}-[0-9a-fA-F]{4}-[0-9a-fA-F]{4}-[0-9a-fA-F]{12}` */
  predicate CheckId(s: string) {
    |s| == 36 && forall i :: 0 <= i < 36 ==>
      if IsHyphenPlace(i) then s[i] == '-'
      else '0' <= s[i] <= '9' || 'a' <= s[i] <= 'f' || 'A' <= s[i] <= 'F'
  }

  /** The form of the ids that the server generates. */
  predicate GeneratedId(s: string) {
    CheckId(s) && forall i :: 0 <= i < 36 ==> !('A' <= s[i] <= 'F')
  }

  predicate AllHex(s: string) {
    forall i :: 0 <= i < |s| ==> '0' <= s[i] <= '9' || 'a' <= s[i] <= 'f' || 'A' <= s[i] <= 'F'
  }

  /** Five groups of 8, 4, 4, 4 and 12 hexadecimal digits in either case, with hyphens between them, and
      nothing else. */
  lemma CheckIdIff(s: string)
    ensures CheckId(s) <==>
            && |s| == 36 && s[8] == '-' && s[13] == '-' && s[18] == '-' && s[23] == '-'
            && AllHex(s[..8]) && AllHex(s[9..13]) && AllHex(s[14..18]) && AllHex(s[19..23]) && AllHex(s[24..])
  {
    if |s| == 36 {
      GroupIs(s, 0, 8);
      GroupIs(s, 9, 13);
      GroupIs(s, 14, 18);
      GroupIs(s, 19, 23);
      GroupIs(s, 24, 36);
      assert s[0..8] == s[..8] && s[24..36] == s[24..];
      hide AllHex;
    }
  }

  lemma GroupIs(s: string, a: nat, b: nat)
    requires a <= b <= |s|
    ensures AllHex(s[a..b]) <==>
            forall i :: a <= i < b ==> '0' <= s[i] <= '9' || 'a' <= s[i] <= 'f' || 'A' <= s[i] <= 'F'
  {
    var t := s[a..b];
    assert forall i :: a <= i < b ==> s[i] == t[i - a];
  }

  lemma IdIsPlain(s: string)
    requires CheckId(s)
    ensures CString(s) == s
  {
    CStringIs(s);
    assert forall i :: 0 <= i < 36 ==> s[i] != '\0';
  }

  lemma GeneratedChecks(id: string)
    requires GeneratedId(id)
    ensures CheckId(id)
  {
  }

  // ----- steps -----

  /** One atomic step of some request. `completes` and `failsAfter` say whether the engine manages
      the statement; `checked` is what reading the request's body gave. */
  datatype Action =
    | Create(checked: Checked, id: string, completes: bool)
    | Update(checked: Checked, id: string, completes: bool)
    | Delete(id: string, completes: bool)
    | View(thread: nat, id: string, failsAfter: Option<nat>)
    | Write(thread: nat, completes: bool)

  /** A body that was accepted has three presentable values: see `AcceptedValues`. */
  predicate Plausible(c: Checked) {
    c.Accepted? ==> |c.params| == 3 && Presentable(c.params[0], c.params[1], c.params[2])
  }

  // ----- what a log says -----

  datatype Meme = Meme(image: Bytes, top: Bytes, bottom: Bytes)

  function MemeOf(c: Checked): Option<Meme> {
    if c.Accepted? && |c.params| == 3 then Some(Meme(c.params[0], c.params[1], c.params[2])) else None
  }

  /** The captions under a key: those of the last completed insertion or caption update, until a
      completed deletion. Views have no part in it. */
  function Stored(log: seq<Action>, key: string): Option<Meme>
    decreases |log|
  {
    if log == [] then None
    else
      var before := Stored(Front(log), key);
      match Back(log)
      case Create(checked, id, completes) =>
        if completes && id == key && MemeOf(checked).Some? then MemeOf(checked) else before
      case Update(checked, id, completes) =>
        if completes && id == key && CheckId(id) && MemeOf(checked).Some? && before.Some? then MemeOf(checked)
        else before
      case Delete(id, completes) => if completes && id == key && CheckId(id) then None else before
      case View(_, _, _) => before
      case Write(_, _) => before
  }

  /** The stored keys in the order in which their memes were created. */
  function Keys(log: seq<Action>): seq<string>
    decreases |log|
  {
    if log == [] then []
    else
      var before := Keys(Front(log));
      match Back(log)
      case Create(_, id, _) => if Creates(Back(log), id) then before + [id] else before
      case Delete(id, completes) => if completes && CheckId(id) then Without(before, id) else before
      case _ => before
  }

  /** The key whose row a thread has read and not yet written back. */
  function Target(log: seq<Action>, thread: nat): Option<string>
    decreases |log|
  {
    if log == [] then None
    else
      match Back(log)
      case View(t, id, failsAfter) =>
        if t == thread then
          if Stored(Front(log), CString(id)).Some? && failsAfter != Some(0) then Some(CString(id)) else None
        else Target(Front(log), thread)
      case Write(t, _) => if t == thread then None else Target(Front(log), thread)
      case _ => Target(Front(log), thread)
  }

  /** A completed write of a view to the given key. */
  predicate WritesTo(log: seq<Action>, key: string)
    requires log != []
  {
    Back(log).Write? && Back(log).completes && Target(Front(log), Back(log).thread) == Some(key)
  }

  /** One more view; past the largest `int` the sum wraps around, as on the usual machines. */
  function Bumped(seen: Int32): Int32 {
    if seen == INT_MAX then INT_MIN else seen + 1
  }

  predicate Creates(a: Action, key: string) {
    a.Create? && a.completes && a.id == key && MemeOf(a.checked).Some?
  }

  /** The count under a key: one more than what the last completed view write to it had read. */
  function Counter(log: seq<Action>, key: string): Int32
    decreases |log|
  {
    if log == [] then 0
    else if WritesTo(log, key) then Bumped(Seen(Front(log), Back(log).thread))
    else if Creates(Back(log), key) then 0
    else Counter(Front(log), key)
  }

  /** The count that a thread's last view read. */
  function Seen(log: seq<Action>, thread: nat): Int32
    decreases |log|
  {
    if log == [] then 0
    else if Back(log).View? && Back(log).thread == thread then Counter(Front(log), CString(Back(log).id))
    else Seen(Front(log), thread)
  }

  /** The number of completed view writes to a key. */
  function Writes(log: seq<Action>, key: string): nat
    decreases |log|
  {
    if log == [] then 0 else Writes(Front(log), key) + if WritesTo(log, key) then 1 else 0
  }

  /** Some other view of the same meme has written since this thread's view read. */
  predicate Stale(log: seq<Action>, thread: nat)
    decreases |log|
  {
    if log == [] then false
    else if Back(log).View? && Back(log).thread == thread then false
    else
      || Stale(Front(log), thread)
      || (Target(Front(log), thread).Some? && Back(log).Write? && Back(log).thread != thread
          && WritesTo(log, Target(Front(log), thread).value))
  }

  /** No completed view write to the key came from a stale view. */
  predicate Clean(log: seq<Action>, key: string)
    decreases |log|
  {
    log == [] || (Clean(Front(log), key) && (WritesTo(log, key) ==> !Stale(Front(log), Back(log).thread)))
  }

  // ----- which logs are possible -----

  /** No meme has been given this id. */
  predicate FreshIn(log: seq<Action>, id: string) {
    forall i :: 0 <= i < |log| ==> !Takes(log[i], id)
  }

  predicate Takes(a: Action, id: string) {
    a.Create? && a.checked.Accepted? && a.id == id
  }

  /** New ids are generated and fresh; a thread views when it has no view under way, and writes when
      it has one. */
  predicate Allowed(log: seq<Action>, a: Action) {
    match a
    case Create(checked, id, _) => Plausible(checked) && GeneratedId(id) && FreshIn(log, id)
    case Update(checked, _, _) => Plausible(checked)
    case Delete(_, _) => true
    case View(thread, _, _) => Target(log, thread).None?
    case Write(thread, _) => Target(log, thread).Some?
  }

  predicate Possible(log: seq<Action>)
    decreases |log|
  {
    log == [] || (Possible(Front(log)) && Allowed(Front(log), Back(log)))
  }

  lemma FreshBefore(log: seq<Action>, id: string)
    requires log != []
    ensures FreshIn(log, id) <==> FreshIn(Front(log), id) && !Takes(Back(log), id)
  {
    assert log == Front(log) + [Back(log)];
  }

  /** Nothing has happened under an id that no meme has been given. */
  lemma {:induction false} FreshIsUntouched(log: seq<Action>, id: string, thread: nat)
    requires FreshIn(log, id)
    ensures Stored(log, id).None? && Target(log, thread) != Some(id)
    ensures Writes(log, id) == 0 && Clean(log, id)
    decreases |log|
  {
    if log != [] {
      FreshBefore(log, id);
      FreshIsUntouched(Front(log), id, thread);
      if Back(log).Write? {
        FreshIsUntouched(Front(log), id, Back(log).thread);
      }
      hide FreshIn, CString;
    }
  }

  lemma {:induction false} StoredIsGenerated(log: seq<Action>, key: string)
    requires Possible(log) && Stored(log, key).Some?
    ensures GeneratedId(key) && CString(key) == key && !FreshIn(log, key)
    ensures var m := Stored(log, key).value; Presentable(m.image, m.top, m.bottom)
    decreases |log|
  {
    if FreshIn(log, key) {
      FreshIsUntouched(log, key, 0);
    }
    hide Presentable, GeneratedId, FreshIn, CheckId, CString;
    if Stored(Front(log), key).Some? {
      StoredIsGenerated(Front(log), key);
    } else {
      GeneratedChecks(key);
      IdIsPlain(key);
    }
  }

  lemma {:induction false} TargetIsGenerated(log: seq<Action>, thread: nat)
    requires Possible(log) && Target(log, thread).Some?
    ensures GeneratedId(Target(log, thread).value) && CString(Target(log, thread).value) == Target(log, thread).value
    decreases |log|
  {
    hide Presentable, GeneratedId, FreshIn, CheckId, CString;
    if Back(log).View? && Back(log).thread == thread {
      StoredIsGenerated(Front(log), CString(Back(log).id));
    } else {
      TargetIsGenerated(Front(log), thread);
    }
  }

  // ----- counts and views -----

  /** A count is never negative and at most the number of completed view writes to its key. */
  lemma {:induction false} CounterAtMostWrites(log: seq<Action>, key: string)
    requires Writes(log, key) <= INT_MAX
    ensures 0 <= Counter(log, key) <= Writes(log, key)
    decreases |log|
  {
    if log != [] {
      hide Target;
      CounterAtMostWrites(Front(log), key);
      if WritesTo(log, key) {
        SeenAtMostWrites(Front(log), Back(log).thread);
      }
    }
  }

  lemma {:induction false} SeenAtMostWrites(log: seq<Action>, thread: nat)
    requires Target(log, thread).Some? && Writes(log, Target(log, thread).value) <= INT_MAX
    ensures 0 <= Seen(log, thread) <= Writes(log, Target(log, thread).value)
    decreases |log|
  {
    if Back(log).View? && Back(log).thread == thread {
      CounterAtMostWrites(Front(log), CString(Back(log).id));
    } else {
      SeenAtMostWrites(Front(log), thread);
    }
  }

  lemma CleanUnlessWritten(log: seq<Action>, key: string)
    requires log != [] && !WritesTo(log, key)
    ensures Clean(log, key) == Clean(Front(log), key) && Writes(log, key) == Writes(Front(log), key)
  {
  }

  lemma StoredBefore(log: seq<Action>, key: string)
    requires log != [] && Stored(log, key).Some? && !Creates(Back(log), key)
    ensures Stored(Front(log), key).Some?
  {
  }

  lemma CreatedAnew(log: seq<Action>, key: string)
    requires log != [] && Possible(log) && Creates(Back(log), key)
    ensures Writes(Front(log), key) == 0 && Clean(Front(log), key)
  {
    FreshIsUntouched(Front(log), key, 0);
  }

  /** The count of a stored meme is the number of completed view writes to it exactly when no such
      write came from a stale view. */
  lemma {:induction false} CounterExactIff(log: seq<Action>, key: string)
    requires Possible(log) && Stored(log, key).Some? && Writes(log, key) <= INT_MAX
    ensures Counter(log, key) == Writes(log, key) <==> Clean(log, key)
    decreases |log|
  {
    assert log != [];
    hide Allowed, Target, Stored;
    if WritesTo(log, key) {
      SeenExactIff(Front(log), Back(log).thread);
      SeenAtMostWrites(Front(log), Back(log).thread);
    } else {
      CleanUnlessWritten(log, key);
      if Creates(Back(log), key) {
        CreatedAnew(log, key);
      } else {
        StoredBefore(log, key);
        CounterExactIff(Front(log), key);
      }
    }
  }

  lemma {:induction false} SeenExactIff(log: seq<Action>, thread: nat)
    requires Possible(log) && Target(log, thread).Some? && Writes(log, Target(log, thread).value) <= INT_MAX
    ensures var key := Target(log, thread).value;
            Seen(log, thread) == Writes(log, key) <==> Clean(log, key) && !Stale(log, thread)
    decreases |log|
  {
    var key := Target(log, thread).value;
    assert log != [];
    hide Allowed;
    if Back(log).View? && Back(log).thread == thread {
      CounterExactIff(Front(log), key);
    } else {
      SeenExactIff(Front(log), thread);
      if WritesTo(log, key) {
        SeenAtMostWrites(Front(log), thread);
        assert Back(log).thread != thread;
      } else {
        hide Stored, Counter;
        CleanUnlessWritten(log, key);
      }
    }
  }

  // ----- what one view write does to the count -----

  /** What a view that is not stale has read is still the count. */
  lemma {:induction false} FreshViewSeesCounter(log: seq<Action>, thread: nat)
    requires Possible(log) && Target(log, thread).Some? && !Stale(log, thread)
    ensures Seen(log, thread) == Counter(log, Target(log, thread).value)
    decreases |log|
  {
    var key := Target(log, thread).value;
    assert log != [];
    if !(Back(log).View? && Back(log).thread == thread) {
      FreshViewSeesCounter(Front(log), thread);
      if Creates(Back(log), key) {
        FreshIsUntouched(Front(log), key, thread);
      }
      assert !WritesTo(log, key);
    }
  }

  /** A completed write of a view that is not stale adds one, whatever happened before. */
  lemma FreshViewIsCounted(log: seq<Action>, key: string)
    requires log != [] && Possible(log) && WritesTo(log, key) && !Stale(Front(log), Back(log).thread)
    ensures Counter(log, key) == Bumped(Counter(Front(log), key))
  {
    FreshViewSeesCounter(Front(log), Back(log).thread);
  }

  /** A completed write adds exactly one if and only if its view read the present count, and takes the
      count down if and only if the present count is more than one above what its view read; then
      other views have written since it read. */
  lemma WriteMovesCountIff(log: seq<Action>, key: string)
    requires log != [] && Possible(log) && WritesTo(log, key) && Writes(log, key) <= INT_MAX
    ensures var seen, before, after := Seen(Front(log), Back(log).thread), Counter(Front(log), key), Counter(log, key);
            && (after == before + 1 <==> before == seen)
            && (after < before <==> before > seen + 1)
            && (before != seen ==> Stale(Front(log), Back(log).thread))
  {
    SeenAtMostWrites(Front(log), Back(log).thread);
    if !Stale(Front(log), Back(log).thread) {
      FreshViewSeesCounter(Front(log), Back(log).thread);
    }
  }

  /** Every view of the meme begins when no other view of it is between its two steps. */
  ghost predicate OneAtATime(log: seq<Action>, key: string)
    decreases |log|
  {
    log == []
    || (OneAtATime(Front(log), key)
        && (Back(log).View? && CString(Back(log).id) == key ==> forall t: nat :: Target(Front(log), t) != Some(key)))
  }

  lemma {:induction false} OnlyOneWaits(log: seq<Action>, key: string, t: nat, u: nat)
    requires OneAtATime(log, key) && Target(log, t) == Some(key) && Target(log, u) == Some(key)
    ensures t == u
    decreases |log|
  {
    assert log != [];
    if Back(log).View? && CString(Back(log).id) == key {
      JustStarted(log, key, t);
      JustStarted(log, key, u);
    } else {
      OnlyOneWaits(Front(log), key, t, u);
    }
  }

  lemma JustStarted(log: seq<Action>, key: string, t: nat)
    requires OneAtATime(log, key) && Target(log, t) == Some(key)
    requires log != [] && Back(log).View? && CString(Back(log).id) == key
    ensures Back(log).thread == t
  {
    var idle := Target(Front(log), t);
    assert idle != Some(key);
  }

  lemma {:induction false} WaitingIsFresh(log: seq<Action>, key: string, thread: nat)
    requires OneAtATime(log, key) && Target(log, thread) == Some(key)
    ensures !Stale(log, thread)
    decreases |log|
  {
    assert log != [];
    if !(Back(log).View? && Back(log).thread == thread) {
      WaitingIsFresh(Front(log), key, thread);
      if WritesTo(log, key) {
        OnlyOneWaits(Front(log), key, thread, Back(log).thread);
      }
    }
  }

  /** When the views of one meme come one after the other, every completed one is counted, whatever
      happens to other memes meanwhile. */
  lemma {:induction false} SequentialViewsAreClean(log: seq<Action>, key: string)
    requires OneAtATime(log, key)
    ensures Clean(log, key)
    decreases |log|
  {
    if log != [] {
      SequentialViewsAreClean(Front(log), key);
      if WritesTo(log, key) {
        WaitingIsFresh(Front(log), key, Back(log).thread);
      }
    }
  }

  // ----- views that overlap -----

  lemma Snoc<T>(log: seq<T>, a: T)
    ensures Front(log + [a]) == log && Back(log + [a]) == a
  {
  }

  /** A possible log after which a meme is stored under the key. */
  predicate Showing(log: seq<Action>, key: string) {
    Possible(log) && Stored(log, key).Some?
  }

  /** Such logs exist: the first meme is shown as soon as it is created. */
  lemma FirstMeme(c: Checked, id: string, t: nat)
    requires Plausible(c) && c.Accepted? && GeneratedId(id)
    ensures var log := [Create(c, id, true)]; Showing(log, id) && Target(log, t).None?
  {
    var log := [Create(c, id, true)];
    hide GeneratedId, Presentable;
    assert Front(log) == [] && Back(log) == Create(c, id, true);
    assert FreshIn([], id) && Possible([]) && Stored([], id) == None;
    assert Allowed([], Back(log));
  }

  lemma AfterView(log: seq<Action>, key: string, t: nat, u: nat)
    requires Showing(log, key) && Target(log, t).None?
    ensures var next := log + [View(t, key, None)];
            && Showing(next, key) && Counter(next, key) == Counter(log, key)
            && Writes(next, key) == Writes(log, key)
            && Target(next, t) == Some(key) && Seen(next, t) == Counter(log, key)
            && (u != t ==> Target(next, u) == Target(log, u) && Seen(next, u) == Seen(log, u))
  {
    Snoc(log, View(t, key, None));
    StoredIsGenerated(log, key);
  }

  lemma AfterWrite(log: seq<Action>, key: string, t: nat, u: nat)
    requires Showing(log, key) && Target(log, t) == Some(key)
    ensures var next := log + [Write(t, true)];
            && Showing(next, key) && Counter(next, key) == Bumped(Seen(log, t))
            && Writes(next, key) == Writes(log, key) + 1
            && Target(next, t).None?
            && (u != t ==> Target(next, u) == Target(log, u) && Seen(next, u) == Seen(log, u))
  {
    Snoc(log, Write(t, true));
  }

  /** Two overlapping views of a stored meme that both complete raise its count by one only. */
  lemma OverlapLosesAView(log: seq<Action>, key: string, t: nat, u: nat)
    requires Showing(log, key) && Writes(log, key) + 2 <= INT_MAX
    requires t != u && Target(log, t).None? && Target(log, u).None?
    ensures var end := log + [View(t, key, None)] + [View(u, key, None)] + [Write(t, true)] + [Write(u, true)];
            && Showing(end, key)
            && Counter(end, key) == Counter(log, key) + 1 && Writes(end, key) == Writes(log, key) + 2
  {
    CounterAtMostWrites(log, key);
    hide Showing, Counter, Writes, Target, Seen;
    var one := log + [View(t, key, None)];
    var two := one + [View(u, key, None)];
    AfterView(log, key, t, u);
    AfterView(one, key, u, t);
    AfterWrite(two, key, t, u);
    AfterWrite(two + [Write(t, true)], key, u, t);
  }

  /** A view that waits while the same meme is viewed twice then sets its count back by one. */
  lemma OverlapLowersTheCount(log: seq<Action>, key: string, t: nat, u: nat)
    requires Showing(log, key) && Writes(log, key) + 3 <= INT_MAX
    requires t != u && Target(log, t).None? && Target(log, u).None?
    ensures var high := log + [View(t, key, None)] + [View(u, key, None)] + [Write(u, true)]
                        + [View(u, key, None)] + [Write(u, true)];
            && Showing(high, key) && Counter(high, key) == Counter(log, key) + 2
            && var end := high + [Write(t, true)];
               && Showing(end, key)
               && Counter(end, key) == Counter(high, key) - 1 && Writes(end, key) == Writes(log, key) + 3
  {
    CounterAtMostWrites(log, key);
    hide Showing, Counter, Writes, Target, Seen;
    var one := log + [View(t, key, None)];
    var two := one + [View(u, key, None)];
    var three := two + [Write(u, true)];
    var four := three + [View(u, key, None)];
    AfterView(log, key, t, u);
    AfterView(one, key, u, t);
    AfterWrite(two, key, u, t);
    AfterView(three, key, u, t);
    AfterWrite(four, key, u, t);
    AfterWrite(four + [Write(u, true)], key, t, u);
  }

  /** A new meme: the body of its form was accepted, and its id is of the generated form. */
  predicate IsNewMeme(c: Checked, id: string) {
    Plausible(c) && c.Accepted? && GeneratedId(id)
  }

  lemma NewMemesExist()
    ensures exists c, id :: IsNewMeme(c, id)
  {
    hide NamesTemplate, GeneratedId;
    var image: Bytes, caption: Bytes := "a.jpg", "x";
    SomeTemplate(image);
    var id: string := seq(36, i => if IsHyphenPlace(i) then '-' else '0');
    SomeId(id);
    assert IsNewMeme(Accepted([image, caption, caption]), id);
  }

  lemma SomeTemplate(image: Bytes)
    requires image == "a.jpg"
    ensures NamesTemplate(image)
  {
    assert TemplateAt(image, 1);
  }

  lemma SomeId(id: string)
    requires |id| == 36 && forall i :: 0 <= i < 36 ==> id[i] == if IsHyphenPlace(i) then '-' else '0'
    ensures GeneratedId(id)
  {
  }

  /** Two views of a meme that has just been created can leave its count 1, and three can take it from
      2 back to 1. */
  predicate Overlaps(c: Checked, id: string, t: nat, u: nat) {
    var both := [Create(c, id, true)] + [View(t, id, None)] + [View(u, id, None)];
    var lost := both + [Write(t, true)] + [Write(u, true)];
    var high := both + [Write(u, true)] + [View(u, id, None)] + [Write(u, true)];
    var lowered := high + [Write(t, true)];
    && Possible(lost) && Counter(lost, id) == 1 && Writes(lost, id) == 2
    && Possible(high) && Counter(high, id) == 2
    && Possible(lowered) && Counter(lowered, id) == 1 && Writes(lowered, id) == 3
  }

  /** Memes can be created, and both runs can happen to every one of them, by any two threads. */
  lemma OverlapsHappen(t: nat, u: nat)
    requires t != u
    ensures exists c, id :: IsNewMeme(c, id)
    ensures forall c, id :: IsNewMeme(c, id) ==> Overlaps(c, id, t, u)
  {
    hide *;
    NewMemesExist();
    forall c, id | IsNewMeme(c, id)
      ensures Overlaps(c, id, t, u)
    {
      NewMemeOverlaps(c, id, t, u);
    }
  }

  lemma NewMemeOverlaps(c: Checked, id: string, t: nat, u: nat)
    requires IsNewMeme(c, id) && t != u
    ensures Overlaps(c, id, t, u)
  {
    var log := [Create(c, id, true)];
    FirstMeme(c, id, t);
    FirstMeme(c, id, u);
    NothingViewed(log, id);
    hide Counter, Writes, Target, Plausible, GeneratedId, Possible, Stored;
    OverlapLosesAView(log, id, t, u);
    OverlapLowersTheCount(log, id, t, u);
  }

  lemma NothingViewed(log: seq<Action>, id: string)
    requires |log| == 1 && log[0].Create?
    ensures Counter(log, id) == 0 && Writes(log, id) == 0
  {
    assert Front(log) == [];
  }
}
