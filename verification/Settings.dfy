/** Which server settings a configuration's top-level tokens give. */
module Settings {
  import opened Text

  const MAX_PORT := 65535
  const DEFAULT_THREADS := 10

  /** The settings gathered so far: the port once one has been accepted, the root, the thread count. */
  datatype Gathered = Gathered(port: Option<int>, root: string, threads: int)

  const INITIAL := Gathered(None, "", DEFAULT_THREADS)

  /** `int` to `unsigned int`. */
  function ToUnsigned(n: Int32): (u: int)
    ensures 0 <= u < 0x1_0000_0000
  {
    if n < 0 then n + 0x1_0000_0000 else n
  }

  /** An integer that is accepted as a port; None stands for a token that is not an `int`. */
  predicate GoodPort(number: Option<Int32>) {
    number.Some? && 0 < number.value <= MAX_PORT
  }

  predicate GoodThreads(number: Option<Int32>) {
    number.Some? && number.value != 0
  }

  function RootOf(token: string): string {
    if token == "." then "" else token
  }

  /** The thread count that a number after `threadCount` leaves: zero resets to the default, and a
      negative number wraps around to a large one. */
  function ThreadsOf(number: Int32): (n: int)
    ensures 1 <= n < 0x1_0000_0000
  {
    if number == 0 then DEFAULT_THREADS else ToUnsigned(number)
  }

  /** A token in the place where the keyword before it takes its value, with its reading as an
      integer. */
  datatype Slot = Slot(keyword: string, token: string, number: Option<Int32>)

  function SlotOf(keyword: string, token: string): Slot {
    Slot(keyword, token, Stoi(token))
  }

  // ----- what the loops do, token by token -----

  /** The effect of a token on the settings. */
  function Gather(g: Gathered, s: Slot): Gathered {
    if s.keyword == "port" && g.port.None? then
      if GoodPort(s.number) then g.(port := s.number) else g
    else if s.keyword == "root" then g.(root := RootOf(s.token))
    else if s.keyword == "threadCount" && s.number.Some? then g.(threads := ThreadsOf(s.number.value))
    else g
  }

  /** The previous token as the next token sees it: a rejected value does not replace its keyword. */
  function NextKeyword(found: bool, s: Slot): string {
    if (s.keyword == "port" && !found && !GoodPort(s.number))
       || (s.keyword == "threadCount" && !GoodThreads(s.number)) then s.keyword
    else s.token
  }

  function GatherStatement(g: Gathered, prev: string, tokens: seq<string>): Gathered
    decreases tokens
  {
    if tokens == [] then g
    else
      var s := SlotOf(prev, tokens[0]);
      GatherStatement(Gather(g, s), NextKeyword(g.port.Some?, s), tokens[1..])
  }

  lemma GatherOne(g: Gathered, prev: string, tokens: seq<string>, i: nat)
    requires i < |tokens|
    ensures var slot := SlotOf(prev, tokens[i]);
            GatherStatement(g, prev, tokens[i..])
            == GatherStatement(Gather(g, slot), NextKeyword(g.port.Some?, slot), tokens[i + 1..])
  {
    assert tokens[i..][1..] == tokens[i + 1..];
  }

  lemma GatherNothing(g: Gathered, prev: string)
    ensures GatherStatement(g, prev, []) == g
  {
  }

  function GatherAll(g: Gathered, statements: seq<seq<string>>): Gathered
    decreases statements
  {
    if statements == [] then g
    else GatherAll(GatherStatement(g, "", statements[0]), statements[1..])
  }

  lemma {:induction false} GatherAllSnoc(g: Gathered, statements: seq<seq<string>>, tokens: seq<string>)
    ensures GatherAll(g, statements + [tokens]) == GatherStatement(GatherAll(g, statements), "", tokens)
    decreases statements
  {
    if statements == [] {
      assert [tokens][1..] == [];
    } else {
      assert (statements + [tokens])[1..] == statements[1..] + [tokens];
      GatherAllSnoc(GatherStatement(g, "", statements[0]), statements[1..], tokens);
    }
  }

  // ----- the settings read off the slots of the file -----

  predicate GivesPort(s: Slot) {
    s.keyword == "port" && GoodPort(s.number)
  }

  predicate GivesRoot(s: Slot) {
    s.keyword == "root"
  }

  predicate GivesThreads(s: Slot) {
    s.keyword == "threadCount" && s.number.Some?
  }

  /** The slots of one statement: the keyword of a slot is the latest token that was not rejected. */
  function StatementSlots(found: bool, keyword: string, tokens: seq<string>): seq<Slot>
    decreases tokens
  {
    if tokens == [] then []
    else
      var s := SlotOf(keyword, tokens[0]);
      [s] + StatementSlots(found || GivesPort(s), NextKeyword(found, s), tokens[1..])
  }

  /** The slots of a whole configuration, in order. */
  function Slots(found: bool, statements: seq<seq<string>>): seq<Slot>
    decreases statements
  {
    if statements == [] then []
    else
      var here := StatementSlots(found, "", statements[0]);
      here + Slots(found || First(GivesPort, here).Some?, statements[1..])
  }

  /** The first element with the property. */
  function First<T>(p: T -> bool, xs: seq<T>): (r: Option<T>)
    ensures r.Some? ==> p(r.value)
  {
    if xs == [] then None else if p(xs[0]) then Some(xs[0]) else First(p, xs[1..])
  }

  /** The last element with the property. */
  function Last<T>(p: T -> bool, xs: seq<T>): (r: Option<T>)
    ensures r.Some? ==> p(r.value)
  {
    var n := |xs|;
    if n == 0 then None else if p(xs[n - 1]) then Some(xs[n - 1]) else Last(p, xs[..n - 1])
  }

  ghost predicate NoneBefore<T(!new)>(p: T -> bool, xs: seq<T>, i: int) {
    forall j :: 0 <= j < i && j < |xs| ==> !p(xs[j])
  }

  ghost predicate NoneAfter<T(!new)>(p: T -> bool, xs: seq<T>, i: int) {
    forall j :: 0 <= j < |xs| && i < j ==> !p(xs[j])
  }

  lemma {:induction false} FirstIs<T(!new)>(p: T -> bool, xs: seq<T>, i: nat)
    requires i <= |xs| && NoneBefore(p, xs, i) && (i < |xs| ==> p(xs[i]))
    ensures First(p, xs) == if i < |xs| then Some(xs[i]) else None
  {
    if 0 < i {
      assert forall j :: 0 <= j < |xs| - 1 ==> xs[1..][j] == xs[j + 1];
      FirstIs(p, xs[1..], i - 1);
    }
  }

  lemma {:induction false} LastIs<T(!new)>(p: T -> bool, xs: seq<T>, i: int)
    requires -1 <= i < |xs| && NoneAfter(p, xs, i) && (0 <= i ==> p(xs[i]))
    ensures Last(p, xs) == if 0 <= i then Some(xs[i]) else None
  {
    var n := |xs|;
    if i < n - 1 {
      LastIs(p, xs[..n - 1], i);
    }
  }

  lemma FirstMeaning<T(!new)>(p: T -> bool, xs: seq<T>)
    ensures First(p, xs).None? <==> NoneBefore(p, xs, |xs|)
    ensures forall i :: 0 <= i < |xs| && p(xs[i]) && NoneBefore(p, xs, i) ==> First(p, xs) == Some(xs[i])
  {
    forall i: nat | i <= |xs| && NoneBefore(p, xs, i) && (i < |xs| ==> p(xs[i]))
      ensures First(p, xs) == if i < |xs| then Some(xs[i]) else None
    {
      FirstIs(p, xs, i);
    }
    if !NoneBefore(p, xs, |xs|) {
      var i := LeastWith(p, xs);
      assert First(p, xs) == Some(xs[i]);
    }
  }

  lemma LeastWith<T(!new)>(p: T -> bool, xs: seq<T>) returns (i: nat)
    requires !NoneBefore(p, xs, |xs|)
    ensures i < |xs| && p(xs[i]) && NoneBefore(p, xs, i)
  {
    i := 0;
    while !p(xs[i])
      invariant i < |xs| && NoneBefore(p, xs, i)
      decreases |xs| - i
    {
      i := i + 1;
    }
  }

  lemma LastMeaning<T(!new)>(p: T -> bool, xs: seq<T>)
    ensures Last(p, xs).None? <== NoneAfter(p, xs, -1)
    ensures forall i :: 0 <= i < |xs| && p(xs[i]) && NoneAfter(p, xs, i) ==> Last(p, xs) == Some(xs[i])
  {
    forall i | -1 <= i < |xs| && NoneAfter(p, xs, i) && (0 <= i ==> p(xs[i]))
      ensures Last(p, xs) == if 0 <= i then Some(xs[i]) else None
    {
      LastIs(p, xs, i);
    }
  }

  lemma {:induction false} FirstConcat<T>(p: T -> bool, a: seq<T>, b: seq<T>)
    ensures First(p, a + b) == if First(p, a).Some? then First(p, a) else First(p, b)
  {
    if a == [] {
      assert a + b == b;
    } else {
      assert (a + b)[1..] == a[1..] + b;
      FirstConcat(p, a[1..], b);
    }
  }

  lemma {:induction false} LastConcat<T>(p: T -> bool, a: seq<T>, b: seq<T>)
    ensures Last(p, a + b) == if Last(p, b).Some? then Last(p, b) else Last(p, a)
  {
    if b == [] {
      assert a + b == a;
    } else {
      assert (a + b)[..|a + b| - 1] == a + b[..|b| - 1];
      LastConcat(p, a, b[..|b| - 1]);
    }
  }

  /** `before` updated by the slots: the first good port (unless there was one already), the last
      root, the last readable thread count. */
  function ReadOff(before: Gathered, slots: seq<Slot>): Gathered {
    var p, r, t := First(GivesPort, slots), Last(GivesRoot, slots), Last(GivesThreads, slots);
    Gathered(
      if before.port.Some? || p.None? then before.port else p.value.number,
      if r.None? then before.root else RootOf(r.value.token),
      if t.None? then before.threads else ThreadsOf(t.value.number.value))
  }

  lemma ReadOffConcat(g: Gathered, a: seq<Slot>, b: seq<Slot>)
    ensures ReadOff(g, a + b) == ReadOff(ReadOff(g, a), b)
  {
    FirstConcat(GivesPort, a, b);
    LastConcat(GivesRoot, a, b);
    LastConcat(GivesThreads, a, b);
  }

  lemma OnlyOne<T>(p: T -> bool, x: T)
    ensures First(p, [x]) == (if p(x) then Some(x) else None) == Last(p, [x])
  {
    assert [x][..0] == [] && [x][1..] == [];
  }

  lemma ReadOffOne(g: Gathered, s: Slot)
    ensures ReadOff(g, [s]) == Gather(g, s)
  {
    OnlyOne(GivesPort, s);
    OnlyOne(GivesRoot, s);
    OnlyOne(GivesThreads, s);
  }

  lemma {:induction false} StatementReadOff(g: Gathered, prev: string, tokens: seq<string>)
    ensures GatherStatement(g, prev, tokens) == ReadOff(g, StatementSlots(g.port.Some?, prev, tokens))
    decreases tokens
  {
    if tokens != [] {
      var s := SlotOf(prev, tokens[0]);
      ReadOffOne(g, s);
      StatementReadOff(Gather(g, s), NextKeyword(g.port.Some?, s), tokens[1..]);
      ReadOffConcat(g, [s], StatementSlots(g.port.Some? || GivesPort(s), NextKeyword(g.port.Some?, s), tokens[1..]));
    }
  }

  lemma {:induction false} AllReadOff(g: Gathered, statements: seq<seq<string>>)
    ensures GatherAll(g, statements) == ReadOff(g, Slots(g.port.Some?, statements))
    decreases statements
  {
    if statements != [] {
      var here := StatementSlots(g.port.Some?, "", statements[0]);
      StatementReadOff(g, "", statements[0]);
      AllReadOff(ReadOff(g, here), statements[1..]);
      ReadOffConcat(g, here, Slots(g.port.Some? || First(GivesPort, here).Some?, statements[1..]));
    }
  }

  /** A port is found exactly when some slot gives one; it is the first such, and in range. */
  lemma PortMeaning(statements: seq<seq<string>>)
    ensures var g, slots := GatherAll(INITIAL, statements), Slots(false, statements);
            && (g.port.None? <==> NoneBefore(GivesPort, slots, |slots|))
            && (g.port.Some? ==> 1 <= g.port.value <= MAX_PORT)
            && forall i :: 0 <= i < |slots| && GivesPort(slots[i]) && NoneBefore(GivesPort, slots, i) ==>
                 g.port == slots[i].number
  {
    AllReadOff(INITIAL, statements);
    FirstMeaning(GivesPort, Slots(false, statements));
  }

  /** The root is the last one given, "." standing for the empty root, and empty when none is. */
  lemma RootMeaning(statements: seq<seq<string>>)
    ensures var g, slots := GatherAll(INITIAL, statements), Slots(false, statements);
            && (NoneAfter(GivesRoot, slots, -1) ==> g.root == "")
            && forall i :: 0 <= i < |slots| && GivesRoot(slots[i]) && NoneAfter(GivesRoot, slots, i) ==>
                 g.root == RootOf(slots[i].token)
  {
    AllReadOff(INITIAL, statements);
    LastMeaning(GivesRoot, Slots(false, statements));
  }

  /** The thread count is set by the last readable value, is the default when there is none, and is
      never zero. */
  lemma ThreadsMeaning(statements: seq<seq<string>>)
    ensures var g, slots := GatherAll(INITIAL, statements), Slots(false, statements);
            && 1 <= g.threads < 0x1_0000_0000
            && (NoneAfter(GivesThreads, slots, -1) ==> g.threads == DEFAULT_THREADS)
            && forall i :: 0 <= i < |slots| && GivesThreads(slots[i]) && NoneAfter(GivesThreads, slots, i) ==>
                 g.threads == ThreadsOf(slots[i].number.value)
  {
    AllReadOff(INITIAL, statements);
    LastMeaning(GivesThreads, Slots(false, statements));
  }

  // ----- the narrowing of the port on its way to the listening socket -----

  /** `int` to `short`. */
  function ToShort(n: int): (s: int)
    ensures -0x8000 <= s < 0x8000
  {
    var m := n % 0x1_0000;
    if m < 0x8000 then m else m - 0x1_0000
  }

  /** `short` to `unsigned short`. */
  function ToUnsignedShort(n: int): (u: int)
    requires -0x8000 <= n < 0x8000
    ensures 0 <= u < 0x1_0000
  {
    if n < 0 then n + 0x1_0000 else n
  }

  lemma NarrowingKeepsPorts(p: int)
    requires 1 <= p <= MAX_PORT
    ensures ToUnsignedShort(ToShort(p)) == p
  {
  }

  /** Although the port passes through a `short`, the socket listens on the configured one. */
  lemma PortSurvivesNarrowing(statements: seq<seq<string>>)
    requires GatherAll(INITIAL, statements).port.Some?
    ensures var p := GatherAll(INITIAL, statements).port.value; ToUnsignedShort(ToShort(p)) == p
  {
    PortMeaning(statements);
    NarrowingKeepsPorts(GatherAll(INITIAL, statements).port.value);
  }
}
