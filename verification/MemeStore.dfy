/** The store of memes as a machine of atomic SQL statements, and the proof that every run of it does
    what the log of its steps says. */
module MemeStore {
  import opened Text
  import opened UriCodec
  import opened FormBody
  import opened SqlLanguage
  import opened SqlText
  import opened SqlManager
  import opened MemeTable
  import opened MemeHistory

  // ----- the machine -----

  /** A view between its two steps: the key of the row it read and the count it read there. */
  datatype Pending = Pending(id: string, seen: Int32)

  datatype State = State(table: Table, pending: map<nat, Pending>, used: set<string>)

  const EMPTY := State(Table(TABLE, COLUMNS, []), map[], {})

  predicate Enabled(s: State, a: Action) {
    match a
    case Create(checked, id, _) => Plausible(checked) && GeneratedId(id) && id !in s.used
    case Update(checked, _, _) => Plausible(checked)
    case Delete(_, _) => true
    case View(thread, _, _) => thread !in s.pending
    case Write(thread, _) => thread in s.pending
  }

  function After(t: Table, effect: Option<Table>, completes: bool): Table {
    if completes && effect.Some? then effect.value else t
  }

  /** What a view reads: the one row it selected, unless there is not exactly one. */
  function Picked(t: Table, id: string, failsAfter: Option<nat>): Option<Row> {
    var rows := Delivered(SelectEffect(t, TABLE, IdIs(id)), failsAfter);
    if |rows| == 1 && |rows[0]| == 5 then Some(rows[0]) else None
  }

  function Step(s: State, a: Action): State
    requires IsMemeTable(s.table) && Enabled(s, a)
  {
    match a
    case Create(checked, id, completes) =>
      if !checked.Accepted? then s
      else
        var p := checked.params;
        s.(table := After(s.table, InsertEffect(s.table, TABLE, NewMeme(id, p[0], p[1], p[2])), completes),
           used := s.used + {id})
    case Update(checked, id, completes) =>
      if !CheckId(id) || !checked.Accepted? then s
      else
        var p := checked.params;
        s.(table := After(s.table, CaptionsEffect(s.table, id, p[0], p[1], p[2]), completes))
    case Delete(id, completes) =>
      if !CheckId(id) then s
      else s.(table := After(s.table, DeleteEffect(s.table, TABLE, IdIs(id)), completes))
    case View(thread, id, failsAfter) =>
      var row := Picked(s.table, id, failsAfter);
      if row.None? || Stoi(row.value[4]).None? then s
      else s.(pending := s.pending[thread := Pending(row.value[0], Stoi(row.value[4]).value)])
    case Write(thread, completes) =>
      var p := s.pending[thread];
      s.(table := After(s.table, CountEffect(s.table, p.id, IntText(Bumped(p.seen))), completes),
         pending := s.pending - {thread})
  }

  lemma StepKeepsTable(s: State, a: Action)
    requires IsMemeTable(s.table) && Enabled(s, a)
    ensures IsMemeTable(Step(s, a).table)
  {
    hide UpdateEffect, InsertEffect, DeleteEffect, SelectEffect, IsMemeTable, CheckId, Presentable;
    match a
    case Create(checked, id, _) =>
      if checked.Accepted? {
        InsertById(s.table, id, checked.params[0], checked.params[1], checked.params[2], "");
      }
    case Update(checked, id, _) =>
      if checked.Accepted? {
        CaptionsById(s.table, id, checked.params[0], checked.params[1], checked.params[2], "");
      }
    case Delete(id, _) => DeleteById(s.table, id, "");
    case View(_, _, _) =>
    case Write(thread, _) =>
      var p := s.pending[thread];
      CountById(s.table, p.id, IntText(Bumped(p.seen)), "");
  }

  /** The state after a log of steps on an empty store; None when some step was not enabled. */
  function Replay(log: seq<Action>): (r: Option<State>)
    ensures r.Some? ==> IsMemeTable(r.value.table)
    decreases |log|
  {
    if log == [] then Some(EMPTY)
    else
      var before := Replay(Front(log));
      if before.None? || !Enabled(before.value, Back(log)) then None
      else
        StepKeepsTable(before.value, Back(log));
        Some(Step(before.value, Back(log)))
  }

  // ----- the machine does what the log says -----

  /** What one step does to the row with a key. */
  function RowStep(s: State, a: Action, key: string): Option<Row>
    requires Enabled(s, a)
  {
    var row := RowOf(s.table.rows, key);
    match a
    case Create(checked, id, completes) =>
      if checked.Accepted? && completes && id == key && row.None? then
        Some(MemeRow(id, checked.params[0], checked.params[1], checked.params[2]))
      else row
    case Update(checked, id, completes) =>
      if CheckId(id) && checked.Accepted? && completes && id == key then
        CaptionsOn(row, checked.params[0], checked.params[1], checked.params[2])
      else row
    case Delete(id, completes) => if CheckId(id) && completes && id == key then None else row
    case View(_, _, _) => row
    case Write(thread, completes) =>
      var p := s.pending[thread];
      if completes && CString(p.id) == key then CountOn(row, IntText(Bumped(p.seen))) else row
  }

  lemma StepOnRow(s: State, a: Action, key: string)
    requires IsMemeTable(s.table) && Enabled(s, a)
    ensures RowOf(Step(s, a).table.rows, key) == RowStep(s, a, key)
  {
    hide UpdateEffect, InsertEffect, DeleteEffect, SelectEffect, IsMemeTable, CheckId, Presentable, RowOf;
    match a
    case Create(checked, id, _) =>
      if checked.Accepted? {
        IdIsPlain(id) by { GeneratedChecks(id); }
        InsertById(s.table, id, checked.params[0], checked.params[1], checked.params[2], key);
      }
    case Update(checked, id, _) =>
      if CheckId(id) && checked.Accepted? {
        IdIsPlain(id);
        CaptionsById(s.table, id, checked.params[0], checked.params[1], checked.params[2], key);
      }
    case Delete(id, _) =>
      if CheckId(id) {
        IdIsPlain(id);
        DeleteById(s.table, id, key);
      }
    case View(_, _, _) =>
    case Write(thread, _) =>
      var p := s.pending[thread];
      CountById(s.table, p.id, IntText(Bumped(p.seen)), key);
  }

  lemma PlainValue(s: Bytes)
    requires AreValueChars(s)
    ensures CString(s) == s
  {
    CStringIs(s);
    assert forall i :: 0 <= i < |s| ==> s[i] != '\0';
  }

  lemma PlainValues(c: Checked)
    requires Plausible(c) && c.Accepted?
    ensures CString(c.params[0]) == c.params[0] && CString(c.params[1]) == c.params[1]
    ensures CString(c.params[2]) == c.params[2]
  {
    PlainValue(c.params[0]);
    PlainValue(c.params[1]);
    PlainValue(c.params[2]);
  }

  lemma PickedIs(t: Table, id: string, failsAfter: Option<nat>)
    requires IsMemeTable(t)
    ensures Picked(t, id, failsAfter) ==
            if failsAfter != Some(0) then RowOf(t.rows, CString(id)) else None
  {
    hide SelectEffect, RowOf;
    SelectById(t, id);
    if RowOf(t.rows, CString(id)).Some? {
      RowsAreFive(t, CString(id));
    }
  }

  lemma RowsAreFive(t: Table, key: string)
    requires IsMemeTable(t) && RowOf(t.rows, key).Some?
    ensures |RowOf(t.rows, key).value| == 5
  {
    var i :| 0 <= i < |t.rows| && t.rows[i] == RowOf(t.rows, key).value;
    assert |t.rows[i]| == |COLUMNS|;
  }

  /** The row that a log leaves under a key. */
  function Expected(log: seq<Action>, key: string): Option<Row> {
    match Stored(log, key)
    case None => None
    case Some(m) => Some(RowFor(key, m, Counter(log, key)))
  }

  function RowFor(key: string, m: Meme, count: Int32): Row {
    [key, m.image, m.top, m.bottom, IntText(count)]
  }

  predicate RowMatches(log: seq<Action>, s: State, key: string) {
    RowOf(s.table.rows, key) == Expected(log, key) && (key in s.used <==> !FreshIn(log, key))
  }

  predicate PendingMatches(log: seq<Action>, s: State, thread: nat) {
    && (thread in s.pending <==> Target(log, thread).Some?)
    && (thread in s.pending ==>
          s.pending[thread].id == Target(log, thread).value && s.pending[thread].seen == Seen(log, thread))
  }

  lemma IntTextIsPlain(n: Int32)
    ensures CString(IntText(n)) == IntText(n)
  {
    var v: int := n;
    var digits := Decimal(if v < 0 then -v else v);
    DecimalRoundTrip(if v < 0 then -v else v);
    CStringIs(IntText(n));
    assert forall i :: 0 <= i < |digits| ==> digits[i] != '\0';
  }

  /** One step of a run, from a state that is as the log says. */
  ghost predicate Follows(log: seq<Action>, before: State) {
    log != [] && IsMemeTable(before.table) && Possible(log) && Enabled(before, Back(log))
  }

  lemma UsedAfter(log: seq<Action>, before: State, key: string)
    requires Follows(log, before) && (key in before.used <==> !FreshIn(Front(log), key))
    ensures key in Step(before, Back(log)).used <==> !FreshIn(log, key)
  {
    FreshBefore(log, key);
    hide FreshIn, Picked, After, IsMemeTable;
  }

  lemma CreateRefines(log: seq<Action>, before: State, key: string)
    requires Follows(log, before) && Back(log).Create? && RowMatches(Front(log), before, key)
    ensures RowMatches(log, Step(before, Back(log)), key)
  {
    var checked := Back(log).checked;
    UsedAfter(log, before, key);
    hide Presentable, GeneratedId, InsertEffect, RowOf, IsMemeTable, IntText, FreshIn, Possible;
    StepOnRow(before, Back(log), key);
    if checked.Accepted? && Back(log).id == key {
      AllowedIsFresh(log);
      FreshIsUntouched(Front(log), key, 0);
      PlainValues(checked);
      GeneratedChecks(key);
      IdIsPlain(key);
      ZeroText();
    }
  }

  lemma AllowedIsFresh(log: seq<Action>)
    requires log != [] && Possible(log) && Back(log).Create?
    ensures FreshIn(Front(log), Back(log).id)
  {
  }

  lemma ZeroText()
    ensures IntText(0) == "0"
  {
  }

  lemma CounterStays(log: seq<Action>, key: string)
    requires log != [] && !Back(log).Create? && !Back(log).Write?
    ensures Counter(log, key) == Counter(Front(log), key)
  {
  }

  lemma CaptionsOnRow(key: string, m: Meme, c: Checked, n: Int32)
    requires Plausible(c) && c.Accepted?
    ensures MemeOf(c).Some?
    ensures CaptionsOn(Some(RowFor(key, m, n)), c.params[0], c.params[1], c.params[2]) ==
            Some(RowFor(key, MemeOf(c).value, n))
    ensures CaptionsOn(None, c.params[0], c.params[1], c.params[2]) == None
  {
    PlainValues(c);
    hide Presentable, CString, IntText;
  }

  lemma UpdateRefines(log: seq<Action>, before: State, key: string)
    requires Follows(log, before) && Back(log).Update? && RowMatches(Front(log), before, key)
    ensures RowMatches(log, Step(before, Back(log)), key)
  {
    var a := Back(log);
    UsedAfter(log, before, key);
    StepOnRow(before, a, key);
    CounterStays(log, key);
    if a.checked.Accepted? && Stored(Front(log), key).Some? {
      CaptionsOnRow(key, Stored(Front(log), key).value, a.checked, Counter(log, key));
    }
    if a.checked.Accepted? && Stored(Front(log), key).None? {
      CaptionsOnRow(key, Meme([], [], []), a.checked, 0);
    }
    hide Presentable, CheckId, Step, RowOf, IsMemeTable, IntText, FreshIn, Possible, Counter, CString, RowFor,
         CaptionsOn, WithCaptions;
  }

  lemma DeleteRefines(log: seq<Action>, before: State, key: string)
    requires Follows(log, before) && Back(log).Delete? && RowMatches(Front(log), before, key)
    ensures RowMatches(log, Step(before, Back(log)), key)
  {
    UsedAfter(log, before, key);
    StepOnRow(before, Back(log), key);
    CounterStays(log, key);
    hide CheckId, Step, RowOf, IsMemeTable, IntText, FreshIn, Possible, Counter, CString;
  }

  lemma ViewRefines(log: seq<Action>, before: State, key: string)
    requires Follows(log, before) && Back(log).View? && RowMatches(Front(log), before, key)
    ensures RowMatches(log, Step(before, Back(log)), key)
  {
    UsedAfter(log, before, key);
    hide GeneratedId, Picked, RowOf, IsMemeTable, IntText, Stoi, FreshIn, Possible;
  }

  lemma WriteRefines(log: seq<Action>, before: State, key: string)
    requires Follows(log, before) && Back(log).Write? && RowMatches(Front(log), before, key)
    requires PendingMatches(Front(log), before, Back(log).thread)
    ensures RowMatches(log, Step(before, Back(log)), key)
  {
    var thread := Back(log).thread;
    var p := before.pending[thread];
    TargetIsGenerated(Front(log), thread);
    UsedAfter(log, before, key);
    hide GeneratedId, UpdateEffect, RowOf, IsMemeTable, IntText, Target, FreshIn, Possible;
    StepOnRow(before, Back(log), key);
    IntTextIsPlain(Bumped(p.seen));
  }

  lemma ViewReads(log: seq<Action>, before: State)
    requires Follows(log, before) && Back(log).View? && RowMatches(Front(log), before, CString(Back(log).id))
    ensures PendingMatches(log, Step(before, Back(log)), Back(log).thread)
  {
    hide GeneratedId, Picked, RowOf, IsMemeTable, IntText, Stoi, Counter, Stored, FreshIn, Possible;
    var key := CString(Back(log).id);
    PickedIs(before.table, Back(log).id, Back(log).failsAfter);
    StoiOfIntText(Counter(Front(log), key));
  }

  lemma OthersWait(log: seq<Action>, before: State, thread: nat)
    requires Follows(log, before) && PendingMatches(Front(log), before, thread)
    requires Back(log).View? ==> Back(log).thread != thread
    ensures PendingMatches(log, Step(before, Back(log)), thread)
  {
    hide GeneratedId, Picked, RowOf, IsMemeTable, IntText, Stoi, Counter, Stored, Presentable, CheckId, After,
         FreshIn, Possible;
  }

  /** The id and the thread on which it depends whether the action is enabled. */
  function IdOf(a: Action): string {
    if a.Create? then a.id else if a.View? then CString(a.id) else ""
  }

  function ThreadOf(a: Action): nat {
    if a.View? || a.Write? then a.thread else 0
  }

  lemma EnabledIff(log: seq<Action>, s: State, a: Action)
    requires RowMatches(log, s, IdOf(a)) && PendingMatches(log, s, ThreadOf(a))
    ensures Enabled(s, a) <==> Allowed(log, a)
  {
    hide Presentable, GeneratedId, FreshIn, RowOf, Target;
  }

  lemma LastStep(log: seq<Action>)
    requires log != []
    ensures |Front(log)| < |log|
    ensures Possible(log) <==> Possible(Front(log)) && Allowed(Front(log), Back(log))
    ensures var before := Replay(Front(log));
            && (before.Some? ==> IsMemeTable(before.value.table))
            && Replay(log) == if before.Some? && Enabled(before.value, Back(log))
                              then Some(Step(before.value, Back(log))) else None
  {
    hide Step, Allowed, Enabled;
  }

  /** Every possible log can be replayed, and after it the row under each key and the pending view of
      each thread are what the log says. So pending views bring no deleted row back and change no
      caption. */
  lemma {:induction false} Refinement(log: seq<Action>, key: string, thread: nat)
    requires Possible(log)
    ensures Replay(log).Some?
    ensures RowMatches(log, Replay(log).value, key)
    ensures PendingMatches(log, Replay(log).value, thread)
    decreases |log|
  {
    if log == [] {
      EmptyRefines(key, thread);
    } else {
      hide *;
      LastStep(log);
      var a := Back(log);
      Refinement(Front(log), key, thread);
      Refinement(Front(log), IdOf(a), ThreadOf(a));
      var before := Replay(Front(log)).value;
      EnabledIff(Front(log), before, a);
      FollowsIs(log, before);
      match a
      case Create(_, _, _) =>
        CreateRefines(log, before, key);
        OthersWait(log, before, thread);
      case Update(_, _, _) =>
        UpdateRefines(log, before, key);
        OthersWait(log, before, thread);
      case Delete(_, _) =>
        DeleteRefines(log, before, key);
        OthersWait(log, before, thread);
      case View(t, id, _) =>
        ViewRefines(log, before, key);
        DependsOn(a);
        if t == thread {
          ViewReads(log, before);
        } else {
          OthersWait(log, before, thread);
        }
      case Write(t, _) =>
        DependsOn(a);
        WriteRefines(log, before, key);
        OthersWait(log, before, thread);
    }
  }

  lemma FollowsIs(log: seq<Action>, before: State)
    requires log != [] && IsMemeTable(before.table) && Possible(log) && Enabled(before, Back(log))
    ensures Follows(log, before)
  {
  }

  lemma DependsOn(a: Action)
    requires a.View? || a.Write?
    ensures ThreadOf(a) == a.thread && (a.View? ==> IdOf(a) == CString(a.id))
  {
  }

  lemma EmptyRefines(key: string, thread: nat)
    ensures RowMatches([], EMPTY, key) && PendingMatches([], EMPTY, thread) && Replay([]) == Some(EMPTY)
  {
  }

  /** The logs that can be replayed are exactly the possible ones. */
  lemma {:induction false} ReplayIffPossible(log: seq<Action>)
    ensures Replay(log).Some? <==> Possible(log)
    decreases |log|
  {
    hide *;
    if log == [] {
      EmptyIsPossible();
    } else {
      LastStep(log);
      ReplayIffPossible(Front(log));
      if Possible(Front(log)) {
        Refinement(Front(log), IdOf(Back(log)), ThreadOf(Back(log)));
        EnabledIff(Front(log), Replay(Front(log)).value, Back(log));
      }
    }
  }

  lemma EmptyIsPossible()
    ensures Replay([]).Some? && Possible([])
  {
  }

  // ----- what can be reached -----

  /** The rows of the table after a log. */
  function Rows(log: seq<Action>): seq<Row> {
    if Replay(log).Some? then Replay(log).value.table.rows else []
  }

  lemma RowsOfLog(log: seq<Action>, key: string)
    requires Possible(log)
    ensures Replay(log).Some? && Replay(log).value.table.rows == Rows(log)
    ensures IsMemeTable(Replay(log).value.table) && UniqueKeys(Rows(log))
    ensures RowOf(Rows(log), key) == Expected(log, key)
  {
    Refinement(log, key, 0);
    hide Step, Enabled, Expected, RowOf, UniqueKeys, Possible;
  }

  lemma IntTextIsInjective(m: Int32, n: Int32)
    ensures IntText(m) == IntText(n) <==> m == n
  {
    StoiOfIntText(m);
    StoiOfIntText(n);
  }

  lemma CountText(n: Int32)
    requires n >= 0
    ensures IntText(n) == Decimal(n)
  {
  }

  /** As long as fewer than 2^31 view writes to a row have completed, its count is a canonical numeral
      between zero and their number, and it is that number exactly when none of them came from a stale
      view. */
  lemma CountsEveryViewIff(log: seq<Action>, key: string)
    requires Possible(log) && Writes(log, key) <= INT_MAX
    ensures RowOf(Rows(log), key).Some? ==>
              var row := RowOf(Rows(log), key).value;
              && |row| == 5
              && (exists n: nat :: n <= Writes(log, key) && row[4] == Decimal(n))
              && (row[4] == Decimal(Writes(log, key)) <==> Clean(log, key))
  {
    RowsOfLog(log, key);
    hide Rows, Replay, RowOf, Stored, Counter, Writes, Clean, Possible, IntText;
    if RowOf(Rows(log), key).Some? {
      CounterExactIff(log, key);
      CounterAtMostWrites(log, key);
      CountText(Counter(log, key));
      CountText(Writes(log, key));
      IntTextIsInjective(Counter(log, key), Writes(log, key));
      assert RowOf(Rows(log), key).value[4] == Decimal(Counter(log, key));
    }
  }

  // ----- the order of rows -----

  /** What one step does to the keys in table order. */
  lemma StepOnKeys(s: State, a: Action)
    requires IsMemeTable(s.table) && Enabled(s, a)
    ensures KeysOf(Step(s, a).table.rows) ==
            var keys := KeysOf(s.table.rows);
            match a
            case Create(checked, id, completes) =>
              if checked.Accepted? && completes && RowOf(s.table.rows, id).None? then keys + [id] else keys
            case Delete(id, completes) => if CheckId(id) && completes then Without(keys, id) else keys
            case _ => keys
  {
    hide UpdateEffect, InsertEffect, DeleteEffect, SelectEffect, IsMemeTable, CheckId, Presentable, RowOf, KeysOf;
    match a
    case Create(checked, id, _) =>
      if checked.Accepted? {
        var p := checked.params;
        IdIsPlain(id) by { GeneratedChecks(id); }
        InsertById(s.table, id, p[0], p[1], p[2], id);
        InsertAppendsKey(s.table, id, p[0], p[1], p[2]);
      }
    case Update(checked, id, _) =>
      if CheckId(id) && checked.Accepted? {
        CaptionsKeepKeys(s.table, id, checked.params[0], checked.params[1], checked.params[2]);
      }
    case Delete(id, _) =>
      if CheckId(id) {
        IdIsPlain(id);
        DeleteById(s.table, id, "");
        DeleteDropsKey(s.table, id);
      }
    case View(_, _, _) =>
    case Write(thread, _) =>
      var p := s.pending[thread];
      CountKeepsKeys(s.table, p.id, IntText(Bumped(p.seen)));
  }

  lemma {:induction false} KeysInOrder(log: seq<Action>)
    requires Possible(log)
    ensures KeysOf(Rows(log)) == Keys(log)
    decreases |log|
  {
    if log == [] {
      NoRows();
    } else {
      hide *;
      LastStep(log);
      var a := Back(log);
      KeysInOrder(Front(log));
      Refinement(Front(log), IdOf(a), ThreadOf(a));
      Refinement(log, "", 0);
      RowsOfLog(Front(log), IdOf(a));
      RowsOfLog(log, "");
      StepOnKeys(Replay(Front(log)).value, a);
      NextKeys(log);
    }
  }

  lemma NoRows()
    ensures KeysOf(Rows([])) == [] && Keys([]) == []
  {
  }

  /** In a possible log an accepted creation that completes always finds its id free. */
  lemma NextKeys(log: seq<Action>)
    requires log != [] && Possible(log)
    ensures Keys(log) ==
            var keys := Keys(Front(log));
            match Back(log)
            case Create(checked, id, completes) =>
              if checked.Accepted? && completes && Expected(Front(log), IdOf(Back(log))).None? then keys + [id]
              else keys
            case Delete(id, completes) => if CheckId(id) && completes then Without(keys, id) else keys
            case _ => keys
  {
    hide CheckId, GeneratedId, Presentable, Without;
    if Back(log).Create? {
      FreshIsUntouched(Front(log), Back(log).id, 0);
    }
  }

  /** The table holds the stored memes in the order of their creation, each with the captions and the
      count that the log says, and nothing else. */
  lemma RowsInOrderOfCreation(log: seq<Action>)
    requires Possible(log)
    ensures |Rows(log)| == |Keys(log)|
    ensures forall i :: 0 <= i < |Keys(log)| ==> Expected(log, Keys(log)[i]) == Some(Rows(log)[i])
  {
    KeysInOrder(log);
    RowsOfLog(log, "");
    forall i | 0 <= i < |Keys(log)|
      ensures Expected(log, Keys(log)[i]) == Some(Rows(log)[i])
    {
      assert KeysOf(Rows(log))[i] == Key(Rows(log)[i]);
      hide Rows, Possible, Keys, KeysOf, Expected;
      RowOfIs(Rows(log), i);
      RowsOfLog(log, Rows(log)[i][0]);
    }
  }

  // ----- counts -----

  /** The count in a row as `stoi` reads it. */
  function CountIn(rows: seq<Row>, key: string): Option<Int32> {
    match RowOf(rows, key)
    case None => None
    case Some(row) => if |row| == 5 then Stoi(row[4]) else None
  }

  lemma CountInRow(log: seq<Action>, key: string)
    requires Possible(log)
    ensures CountIn(Rows(log), key) == if Stored(log, key).Some? then Some(Counter(log, key)) else None
  {
    RowsOfLog(log, key);
    StoiOfIntText(Counter(log, key));
    hide Rows, Possible, RowOf, Stored, Counter, IntText, Stoi;
  }

  /** What a completed view write does to the stored count of its meme, given what its view had read:
      it adds one exactly when the view read the present count, in particular when no other view of
      the meme has written since; it takes the count down exactly when the present count is more than
      one above what was read. */
  lemma WriteMovesStoredCountIff(log: seq<Action>, key: string)
    requires log != [] && Possible(log) && WritesTo(log, key) && Writes(log, key) <= INT_MAX
    requires Stored(Front(log), key).Some?
    ensures Replay(Front(log)).Some? && Back(log).thread in Replay(Front(log)).value.pending
    ensures var seen := Replay(Front(log)).value.pending[Back(log).thread].seen;
            var before, after := CountIn(Rows(Front(log)), key), CountIn(Rows(log), key);
            && before.Some? && after.Some?
            && (after.value == before.value + 1 <==> before.value == seen)
            && (!Stale(Front(log), Back(log).thread) ==> before.value == seen)
            && (after.value < before.value <==> before.value > seen + 1)
  {
    LastStep(log);
    Refinement(Front(log), key, Back(log).thread);
    WriteMovesCountIff(log, key);
    hide Replay, Possible, RowOf, Counter, Seen, CountIn, Rows, Stale;
    CountInRow(Front(log), key);
    CountInRow(log, key);
  }

  /** Five fields: a generated id, a template name and two captions made of value characters, and the
      numeral of an `int`. */
  ghost predicate IsMemeRow(row: Row) {
    exists key: string, m: Meme, n: Int32 :: IsRowFor(row, key, m, n)
  }

  predicate IsRowFor(row: Row, key: string, m: Meme, n: Int32) {
    row == RowFor(key, m, n) && GeneratedId(key) && Presentable(m.image, m.top, m.bottom)
  }

  /** Every row that can ever be in the table is of this form, and its count a canonical decimal one as
      long as fewer than 2^31 view writes to it have completed. */
  lemma EveryRowIsAMeme(log: seq<Action>, row: Row)
    requires Possible(log)
    ensures row in Rows(log) ==>
              && IsMemeRow(row)
              && (Writes(log, row[0]) <= INT_MAX ==> exists n: nat :: n <= INT_MAX && row[4] == Decimal(n))
  {
    if row in Rows(log) {
      RowsOfLog(log, row[0]) by { RowsHaveKeys(log, row); }
      RowsHaveKeys(log, row);
      hide Rows, Replay, RowOf, Stored, Counter, Presentable, GeneratedId, Possible, UniqueKeys;
      var key := row[0];
      StoredIsGenerated(log, key);
      assert IsRowFor(row, key, Stored(log, key).value, Counter(log, key));
      if Writes(log, key) <= INT_MAX {
        CounterAtMostWrites(log, key);
        CountText(Counter(log, key));
        assert row[4] == Decimal(Counter(log, key));
      }
    }
  }

  lemma RowsHaveKeys(log: seq<Action>, row: Row)
    requires Possible(log) && row in Rows(log)
    ensures row != [] && RowOf(Rows(log), row[0]) == Some(row)
  {
    RowsOfLog(log, "");
    hide Rows, Replay, Possible;
    var i :| 0 <= i < |Rows(log)| && Rows(log)[i] == row;
    RowOfIs(Rows(log), i);
  }

  lemma MemeRowIsReadable(row: Row)
    requires IsMemeRow(row)
    ensures |row| == 5 && Stoi(row[4]).Some? && row[1] != "" && row[2] != "" && row[3] != ""
  {
    var key: string, m: Meme, n: Int32 :| IsRowFor(row, key, m, n);
    StoiOfIntText(n);
    hide Stoi;
    assert m.image != [];
  }

  /** So reading a row back for a view always yields a number and three texts that are not empty:
      `stoi` does not throw and no meme counts as corrupted. */
  lemma ViewsNeverFail(log: seq<Action>, id: string, failsAfter: Option<nat>)
    requires Possible(log)
    ensures Replay(log).Some?
    ensures var row := Picked(Replay(log).value.table, id, failsAfter);
            row.Some? ==>
              |row.value| == 5 && Stoi(row.value[4]).Some?
              && row.value[1] != "" && row.value[2] != "" && row.value[3] != ""
  {
    hide *;
    RowsOfLog(log, CString(id));
    var t := Replay(log).value.table;
    PickedIs(t, id, failsAfter);
    if RowOf(t.rows, CString(id)).Some? && failsAfter != Some(0) {
      var row := RowOf(t.rows, CString(id)).value;
      EveryRowIsAMeme(log, row);
      MemeRowIsReadable(row);
    }
  }

  /** A completed view write stores the numeral of the next count exactly when the count read was not
      the largest `int`; after that one it stores the smallest. */
  lemma StoresNextCountIff(s: State, thread: nat)
    requires IsMemeTable(s.table) && thread in s.pending
    requires CheckId(s.pending[thread].id) && RowOf(s.table.rows, s.pending[thread].id).Some?
    ensures var p := s.pending[thread];
            var row := RowOf(Step(s, Write(thread, true)).table.rows, p.id);
            && row.Some? && |row.value| == 5 && Stoi(row.value[4]).Some?
            && var stored := Stoi(row.value[4]).value;
               && row.value[4] == IntText(stored)
               && (stored == p.seen + 1 <==> p.seen < INT_MAX)
               && (p.seen == INT_MAX ==> stored == INT_MIN)
  {
    var p := s.pending[thread];
    StepOnRow(s, Write(thread, true), p.id);
    RowsAreFive(s.table, p.id);
    IdIsPlain(p.id);
    IntTextIsPlain(Bumped(p.seen));
    StoiOfIntText(Bumped(p.seen));
    hide IsMemeTable, CheckId, RowOf, Step, CString, IntText, Stoi;
  }
}
