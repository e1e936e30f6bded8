/** The record operations of the SQL library, and what they do to a table: the text each operation
    builds, read and run with the values it binds, has the effect that its selectors say. */
module SqlManager {
  import opened Text
  import opened SqlLanguage
  import opened SqlText
  import opened SqlCompile

  // ----- what the selectors say -----

  predicate Known(t: Table, sels: seq<Selector>) {
    forall i :: 0 <= i < |sels| ==> sels[i].column in t.columns
  }

  /** Every field agrees with every selector that names its column. */
  predicate Matches(t: Table, row: Row, wheres: seq<Selector>)
    requires |row| == |t.columns|
  {
    forall i, j :: 0 <= i < |wheres| && 0 <= j < |row| ==>
      wheres[i].column == t.columns[j] ==> row[j] == CString(wheres[i].value)
  }

  /** The value of the rightmost selector that names the column, or else what was there. */
  function LastGiven(sels: seq<Selector>, column: string, before: string): string
    decreases |sels|
  {
    if sels == [] then before
    else
      var s := sels[|sels| - 1];
      if s.column == column then CString(s.value) else LastGiven(sels[..|sels| - 1], column, before)
  }

  function Assigned(t: Table, row: Row, sets: seq<Selector>): (r: Row)
    requires |row| == |t.columns|
    ensures |r| == |row|
  {
    seq(|row|, j requires 0 <= j < |row| => LastGiven(sets, t.columns[j], row[j]))
  }

  function Updated(t: Table, row: Row, sets: seq<Selector>, wheres: seq<Selector>): (r: Row)
    requires |row| == |t.columns|
  {
    if Matches(t, row, wheres) then Assigned(t, row, sets) else row
  }

  function UpdatedRows(t: Table, sets: seq<Selector>, wheres: seq<Selector>): seq<Row>
    requires TableOk(t)
  {
    seq(|t.rows|, i requires 0 <= i < |t.rows| => Updated(t, t.rows[i], sets, wheres))
  }

  /** Each row that satisfies all conditions takes the given values; the order of rows stays. It
      fails when there is nothing to set, a name is unknown, or two rows would share a key. */
  function UpdateEffect(t: Table, table: string, sets: seq<Selector>, wheres: seq<Selector>): Option<Table>
    requires TableOk(t)
  {
    if sets == [] || table != t.name || !Known(t, sets) || !Known(t, wheres) then None
    else if UniqueKeys(UpdatedRows(t, sets, wheres)) then Some(t.(rows := UpdatedRows(t, sets, wheres)))
    else None
  }

  predicate GivesEveryColumn(t: Table, sels: seq<Selector>) {
    Known(t, sels) && forall j :: 0 <= j < |t.columns| ==> t.columns[j] in ColumnsOf(sels)
  }

  function GivenRow(t: Table, sels: seq<Selector>): (row: Row)
    requires GivesEveryColumn(t, sels)
    ensures |row| == |t.columns|
  {
    seq(|t.columns|, j requires 0 <= j < |t.columns| =>
      CString(sels[ColumnIndex(ColumnsOf(sels), t.columns[j])].value))
  }

  /** One new last row, with the given values in the table's column order. It fails when a name is
      unknown, a column is given no value, or the key is already there. */
  function InsertEffect(t: Table, table: string, sels: seq<Selector>): Option<Table>
    requires TableOk(t)
  {
    if table != t.name || !GivesEveryColumn(t, sels) then None
    else
      var row := GivenRow(t, sels);
      if forall i :: 0 <= i < |t.rows| ==> t.rows[i][0] != row[0] then Some(t.(rows := t.rows + [row])) else None
  }

  predicate Wanted(t: Table, wheres: seq<Selector>, row: Row) {
    |row| == |t.columns| && Matches(t, row, wheres)
  }

  /** The rows that satisfy all conditions, in table order: all of them when there are none. */
  function SelectEffect(t: Table, table: string, wheres: seq<Selector>): Option<seq<Row>> {
    if table != t.name || !Known(t, wheres) then None
    else Some(Filter((r: Row) => Wanted(t, wheres, r), t.rows))
  }

  /** The rows left are those that fail some condition. */
  function DeleteEffect(t: Table, table: string, wheres: seq<Selector>): Option<Table> {
    if table != t.name || !Known(t, wheres) then None
    else Some(t.(rows := Filter((r: Row) => !Wanted(t, wheres, r), t.rows)))
  }

  /** What the engine does with a text and its bound values; None when it reports an error. */
  function Run(t: Table, text: string, b: Bindings): Option<Table>
    requires TableOk(t)
  {
    match Read(text)
    case None => None
    case Some(s) => Execute(t, s, b)
  }

  function RunQuery(t: Table, text: string, b: Bindings): Option<seq<Row>>
    requires TableOk(t)
  {
    match Read(text)
    case None => None
    case Some(s) => Query(t, s, b)
  }

  // ----- bound values agree with selectors -----

  predicate IsBoundTo(b: Bindings, k: nat, s: Selector) {
    k in b && b[k] == CString(s.value)
  }

  /** Placeholders from `k` on are bound to the values of the selectors. */
  predicate Agrees(b: Bindings, sels: seq<Selector>, k: nat) {
    forall i :: 0 <= i < |sels| ==> IsBoundTo(b, k + i, sels[i])
  }

  lemma BoundAgrees(sets: seq<Selector>, wheres: seq<Selector>)
    ensures Agrees(Bound(sets + wheres), sets, 1)
    ensures Agrees(Bound(sets + wheres), wheres, 1 + |sets|)
  {
  }

  /** The placeholders of a statement are 1 to n + m, each used once and bound to its selector. */
  lemma EachPlaceholderOnce(sets: seq<Selector>, wheres: seq<Selector>)
    ensures var pairs := PairsOf(sets, 1) + PairsOf(wheres, 1 + |sets|);
            var sels := sets + wheres;
            var b := Bound(sels);
            && |pairs| == |sels|
            && (forall k: nat :: k in b <==> 1 <= k <= |sels|)
            && (forall i :: 0 <= i < |sels| ==>
                 && pairs[i].index == i + 1
                 && pairs[i].column == sels[i].column
                 && b[i + 1] == CString(sels[i].value))
  {
    var b := Bound(sets + wheres);
    BoundAgrees(sets, wheres);
    forall i | 0 <= i < |sets + wheres|
      ensures b[i + 1] == CString((sets + wheres)[i].value)
    {
      assert b[i + 1] == ValueFor(sets + wheres, i + 1);
    }
  }

  lemma ResolvesIff(t: Table, sels: seq<Selector>, k: nat, b: Bindings)
    requires Agrees(b, sels, k)
    ensures Resolves(t, PairsOf(sels, k), b) <==> Known(t, sels)
  {
    var pairs := PairsOf(sels, k);
    forall i | 0 <= i < |sels|
      ensures pairs[i].column == sels[i].column && pairs[i].index in b
    {
    }
    if Resolves(t, pairs, b) {
      forall i | 0 <= i < |sels|
        ensures sels[i].column in t.columns
      {
        assert pairs[i].column in t.columns;
      }
    }
  }

  lemma OneColumn(t: Table, column: string, j: nat)
    requires TableOk(t) && column in t.columns && j < |t.columns|
    ensures t.columns[j] == column <==> j == ColumnIndex(t.columns, column)
  {
  }

  lemma SatisfiesIff(t: Table, row: Row, sels: seq<Selector>, k: nat, b: Bindings)
    requires TableOk(t) && |row| == |t.columns| && Agrees(b, sels, k) && Known(t, sels)
    requires Resolves(t, PairsOf(sels, k), b)
    ensures RowSatisfies(t, row, PairsOf(sels, k), b) <==> Matches(t, row, sels)
  {
    hide TableOk, Resolves;
    var pairs := PairsOf(sels, k);
    if RowSatisfies(t, row, pairs, b) {
      forall i, j | 0 <= i < |sels| && 0 <= j < |row| && sels[i].column == t.columns[j]
        ensures row[j] == CString(sels[i].value)
      {
        OneColumn(t, sels[i].column, j);
        assert row[ColumnIndex(t.columns, pairs[i].column)] == b[pairs[i].index];
      }
    }
    if Matches(t, row, sels) {
      forall i | 0 <= i < |pairs|
        ensures row[ColumnIndex(t.columns, pairs[i].column)] == b[pairs[i].index]
      {
        var j := ColumnIndex(t.columns, sels[i].column);
        assert sels[i].column == t.columns[j];
      }
    }
  }

  lemma PrefixOk(t: Table, sels: seq<Selector>, k: nat, b: Bindings)
    requires sels != [] && Agrees(b, sels, k) && Known(t, sels)
    ensures var n := |sels| - 1;
            && Agrees(b, sels[..n], k) && Known(t, sels[..n])
            && PairsOf(sels, k)[..n] == PairsOf(sels[..n], k)
            && PairsOf(sels, k)[n] == Pair(sels[n].column, k + n)
            && IsBoundTo(b, k + n, sels[n])
  {
    var n := |sels| - 1;
    forall i | 0 <= i < n
      ensures IsBoundTo(b, k + i, sels[..n][i])
    {
      assert sels[..n][i] == sels[i];
    }
    assert PairsOf(sels, k)[..n] == PairsOf(sels[..n], k);
  }

  lemma {:induction false} AssignIs(t: Table, row: Row, sels: seq<Selector>, k: nat, b: Bindings)
    requires TableOk(t) && |row| == |t.columns| && Agrees(b, sels, k) && Known(t, sels)
    requires Resolves(t, PairsOf(sels, k), b)
    ensures AssignRow(t, row, PairsOf(sels, k), b) == Assigned(t, row, sels)
    decreases |sels|
  {
    var pairs := PairsOf(sels, k);
    var r := AssignRow(t, row, pairs, b);
    if sels != [] {
      hide Agrees, Known, Resolves, TableOk, PairsOf, ColumnIndex;
      var n := |sels| - 1;
      PrefixOk(t, sels, k, b);
      ResolvesIff(t, sels[..n], k, b);
      AssignIs(t, row, sels[..n], k, b);
      var before := Assigned(t, row, sels[..n]);
      PairsLength(sels, k);
      forall j | 0 <= j < |row|
        ensures r[j] == LastGiven(sels, t.columns[j], row[j])
      {
        KnownAt(t, sels, n);
        OneColumn(t, sels[n].column, j);
      }
    }
  }

  lemma PairsLength(sels: seq<Selector>, k: nat)
    ensures |PairsOf(sels, k)| == |sels|
  {
  }

  lemma KnownAt(t: Table, sels: seq<Selector>, i: nat)
    requires Known(t, sels) && i < |sels|
    ensures sels[i].column in t.columns
  {
  }

  // ----- each text has the effect its selectors say -----

  lemma UpdateRowIs(t: Table, row: Row, sets: seq<Selector>, wheres: seq<Selector>, b: Bindings)
    requires TableOk(t) && |row| == |t.columns| && b == Bound(sets + wheres)
    requires Known(t, sets) && Known(t, wheres)
    requires Resolves(t, PairsOf(sets, 1), b) && Resolves(t, PairsOf(wheres, 1 + |sets|), b)
    ensures UpdateRow(t, row, PairsOf(sets, 1), PairsOf(wheres, 1 + |sets|), b) == Updated(t, row, sets, wheres)
  {
    hide TableOk, Known, Resolves, Agrees, AssignRow, Assigned, RowSatisfies, Matches;
    BoundAgrees(sets, wheres);
    SatisfiesIff(t, row, wheres, 1 + |sets|, b);
    AssignIs(t, row, sets, 1, b);
  }

  /** The UPDATE text with its bound values assigns exactly what the selectors say to exactly the
      rows they say, and fails exactly when they say it must. */
  lemma UpdateMeaning(t: Table, table: string, sets: seq<Selector>, wheres: seq<Selector>)
    requires TableOk(t) && Identifiers(table, sets) && Identifiers(table, wheres)
    ensures Run(t, UpdateText(table, sets, wheres), Bound(sets + wheres)) == UpdateEffect(t, table, sets, wheres)
  {
    hide Read, UpdateText, Identifiers, Known, Resolves, Agrees, Updated, UpdateRow, PairsOf, UniqueKeys, Bound;
    UpdateReads(table, sets, wheres);
    if sets != [] && table == t.name {
      var b := Bound(sets + wheres);
      var first, second := PairsOf(sets, 1), PairsOf(wheres, 1 + |sets|);
      BoundAgrees(sets, wheres);
      ResolvesIff(t, sets, 1, b);
      ResolvesIff(t, wheres, 1 + |sets|, b);
      if Known(t, sets) && Known(t, wheres) {
        var rows := seq(|t.rows|, i requires 0 <= i < |t.rows| => UpdateRow(t, t.rows[i], first, second, b));
        forall i | 0 <= i < |t.rows|
          ensures rows[i] == UpdatedRows(t, sets, wheres)[i]
        {
          UpdateRowIs(t, t.rows[i], sets, wheres, b);
        }
        assert rows == UpdatedRows(t, sets, wheres);
      }
    }
  }

  lemma GivenRowIs(t: Table, sels: seq<Selector>, b: Bindings)
    requires b == Bound(sels) && GivesEveryColumn(t, sels)
    requires InsertAllowed(t, ColumnsOf(sels), UpTo(|sels|, 1), b)
    ensures InsertRow(t, ColumnsOf(sels), UpTo(|sels|, 1), b) == GivenRow(t, sels)
  {
    var row := InsertRow(t, ColumnsOf(sels), UpTo(|sels|, 1), b);
    forall j | 0 <= j < |t.columns|
      ensures row[j] == GivenRow(t, sels)[j]
    {
      var i := ColumnIndex(ColumnsOf(sels), t.columns[j]);
      assert b[i + 1] == ValueFor(sels, i + 1);
    }
  }

  lemma InsertAllowedIff(t: Table, sels: seq<Selector>, b: Bindings)
    requires b == Bound(sels)
    ensures InsertAllowed(t, ColumnsOf(sels), UpTo(|sels|, 1), b) <==> GivesEveryColumn(t, sels)
  {
    var columns, params := ColumnsOf(sels), UpTo(|sels|, 1);
    assert forall i :: 0 <= i < |params| ==> params[i] in b;
    assert forall i :: 0 <= i < |sels| ==> columns[i] == sels[i].column;
    if Known(t, sels) {
      forall i | 0 <= i < |columns|
        ensures columns[i] in t.columns
      {
        assert sels[i].column in t.columns;
      }
    }
    if InsertAllowed(t, columns, params, b) {
      forall i | 0 <= i < |sels|
        ensures sels[i].column in t.columns
      {
        assert columns[i] in t.columns;
      }
    }
  }

  lemma UniqueSnoc(rows: seq<Row>, row: Row)
    requires UniqueKeys(rows) && row != []
    ensures UniqueKeys(rows + [row]) <==> forall i :: 0 <= i < |rows| ==> rows[i][0] != row[0]
  {
    var all := rows + [row];
    if UniqueKeys(all) {
      forall i | 0 <= i < |rows|
        ensures rows[i][0] != row[0]
      {
        assert all[i] == rows[i] && all[|rows|] == row;
      }
    }
  }

  /** The INSERT text with its bound values adds the row the selectors say, and fails exactly when
      they leave a column out, name an unknown one, or repeat a key. */
  lemma InsertMeaning(t: Table, table: string, sels: seq<Selector>)
    requires TableOk(t) && Identifiers(table, sels)
    ensures Run(t, InsertText(table, sels), Bound(sels)) == InsertEffect(t, table, sels)
  {
    hide Read, InsertText, Identifiers, Known, GivenRow, InsertRow, UniqueKeys, Bound, InsertAllowed;
    InsertReads(table, sels);
    InsertAllowedIff(t, sels, Bound(sels));
    if sels == [] {
      assert t.columns[0] !in ColumnsOf(sels);
    } else if table == t.name && GivesEveryColumn(t, sels) {
      GivenRowIs(t, sels, Bound(sels));
      UniqueSnoc(t.rows, GivenRow(t, sels));
    }
  }

  lemma {:induction false} FilterSame(p: Row -> bool, q: Row -> bool, rows: seq<Row>)
    requires forall i :: 0 <= i < |rows| ==> p(rows[i]) == q(rows[i])
    ensures Filter(p, rows) == Filter(q, rows)
  {
    if rows != [] {
      assert forall i :: 0 <= i < |rows[1..]| ==> rows[1..][i] == rows[i + 1];
      FilterSame(p, q, rows[1..]);
    }
  }

  /** The DELETE text with its bound values leaves exactly the rows that fail some condition. */
  lemma DeleteMeaning(t: Table, table: string, wheres: seq<Selector>)
    requires TableOk(t) && Identifiers(table, wheres)
    ensures Run(t, DeleteText(table, wheres), Bound(wheres)) == DeleteEffect(t, table, wheres)
  {
    hide Read, DeleteText, Identifiers, Known, Resolves, RowSatisfies, Matches, PairsOf, Filter, Bound, Agrees;
    FromReads(table, wheres);
    BoundAgrees([], wheres);
    assert [] + wheres == wheres;
    var b, pairs := Bound(wheres), PairsOf(wheres, 1);
    ResolvesIff(t, wheres, 1, b);
    if table == t.name && Known(t, wheres) {
      var p := (r: Row) => |r| == |t.columns| && !RowSatisfies(t, r, pairs, b);
      var q := (r: Row) => !Wanted(t, wheres, r);
      forall i | 0 <= i < |t.rows|
        ensures p(t.rows[i]) == q(t.rows[i])
      {
        SatisfiesIff(t, t.rows[i], wheres, 1, b);
      }
      FilterSame(p, q, t.rows);
    }
  }

  /** The SELECT text with its bound values yields exactly the rows that satisfy all conditions. */
  lemma SelectMeaning(t: Table, table: string, wheres: seq<Selector>)
    requires TableOk(t) && Identifiers(table, wheres)
    ensures RunQuery(t, SelectText(table, wheres), Bound(wheres)) == SelectEffect(t, table, wheres)
  {
    hide Read, SelectText, Identifiers, Known, Resolves, RowSatisfies, Matches, PairsOf, Filter, Bound, Agrees;
    FromReads(table, wheres);
    BoundAgrees([], wheres);
    assert [] + wheres == wheres;
    var b, pairs := Bound(wheres), PairsOf(wheres, 1);
    ResolvesIff(t, wheres, 1, b);
    if table == t.name && Known(t, wheres) {
      var p := (r: Row) => |r| == |t.columns| && RowSatisfies(t, r, pairs, b);
      var q := (r: Row) => Wanted(t, wheres, r);
      forall i | 0 <= i < |t.rows|
        ensures p(t.rows[i]) == q(t.rows[i])
      {
        SatisfiesIff(t, t.rows[i], wheres, 1, b);
      }
      FilterSame(p, q, t.rows);
    }
  }

  // ----- the manager -----

  /** An operation either succeeded with the table it says, or failed and left the table alone. */
  predicate Became(before: Table, after: Table, ok: bool, effect: Option<Table>) {
    ok == effect.Some? && after == if effect.Some? then effect.value else before
  }

  /** The rows handed over before the engine reports an error, if it does. */
  function Delivered(rows: Option<seq<Row>>, failsAfter: Option<nat>): seq<Row> {
    if rows.None? then []
    else if failsAfter.Some? && failsAfter.value < |rows.value| then rows.value[..failsAfter.value]
    else rows.value
  }

  /** A connection to a database with one table. Whether the engine manages to complete a statement
      (no lock, no I/O error) is a parameter of each operation. */
  class SqlManager {
    var db: Table

    constructor (table: string, columns: seq<string>)
      requires columns != [] && forall i, j :: 0 <= i < j < |columns| ==> columns[i] != columns[j]
      ensures TableOk(db) && db == Table(table, columns, [])
    {
      db := Table(table, columns, []);
    }

    /** `sqlite3_step` on a statement that returns no rows. */
    method Step(text: string, b: Bindings, completes: bool) returns (ok: bool)
      requires TableOk(db)
      modifies this
      ensures TableOk(db)
      ensures Became(old(db), db, ok, if completes then Run(old(db), text, b) else None)
    {
      var statement := Read(text);
      if statement.None? || !completes { return false; }
      var after := Execute(db, statement.value, b);
      ExecuteKeepsTable(db, statement.value, b);
      if after.None? { return false; }
      db := after.value;
      return true;
    }

    method InsertRecord(table: string, sels: seq<Selector>, completes: bool) returns (ok: bool)
      requires TableOk(db)
      modifies this
      ensures TableOk(db)
      ensures Became(old(db), db, ok, if completes then Run(old(db), InsertText(table, sels), Bound(sels)) else None)
      ensures Identifiers(table, sels) ==>
                Became(old(db), db, ok, if completes then InsertEffect(old(db), table, sels) else None)
    {
      hide *;
      if Identifiers(table, sels) { InsertMeaning(db, table, sels); }
      var q, b := PrepareInsert(table, sels);
      ok := Step(q, b, completes);
    }

    method UpdateRecord(table: string, sets: seq<Selector>, wheres: seq<Selector>, completes: bool) returns (ok: bool)
      requires TableOk(db)
      modifies this
      ensures TableOk(db)
      ensures Became(old(db), db, ok,
                     if completes then Run(old(db), UpdateText(table, sets, wheres), Bound(sets + wheres)) else None)
      ensures Identifiers(table, sets) && Identifiers(table, wheres) ==>
                Became(old(db), db, ok, if completes then UpdateEffect(old(db), table, sets, wheres) else None)
    {
      hide *;
      if Identifiers(table, sets) && Identifiers(table, wheres) { UpdateMeaning(db, table, sets, wheres); }
      var q, b := PrepareUpdate(table, sets, wheres);
      ok := Step(q, b, completes);
    }

    method DeleteRecord(table: string, sels: seq<Selector>, completes: bool) returns (ok: bool)
      requires TableOk(db)
      modifies this
      ensures TableOk(db)
      ensures Became(old(db), db, ok, if completes then Run(old(db), DeleteText(table, sels), Bound(sels)) else None)
      ensures Identifiers(table, sels) ==>
                Became(old(db), db, ok, if completes then DeleteEffect(old(db), table, sels) else None)
    {
      hide *;
      if Identifiers(table, sels) { DeleteMeaning(db, table, sels); }
      var q, b := PrepareDelete(table, sels);
      ok := Step(q, b, completes);
    }

    method SelectRecord(table: string, sels: seq<Selector>, failsAfter: Option<nat>) returns (result: seq<Row>)
      requires TableOk(db)
      ensures result == Delivered(RunQuery(db, SelectText(table, sels), Bound(sels)), failsAfter)
      ensures Identifiers(table, sels) ==> result == Delivered(SelectEffect(db, table, sels), failsAfter)
    {
      hide *;
      if Identifiers(table, sels) { SelectMeaning(db, table, sels); }
      var q, b := PrepareSelect(table, sels);
      result := Collect(RunQuery(db, q, b), failsAfter);
    }
  }

  method CopyRow(row: Row) returns (temp: Row)
    ensures temp == row
  {
    temp := [];
    for i := 0 to |row|
      invariant temp == row[..i]
    {
      temp := temp + [row[i]];
    }
  }

  /** Steps a query row by row. When the engine fails, after some number of rows, the rows copied so
      far are the result. */
  method Collect(cursor: Option<seq<Row>>, failsAfter: Option<nat>) returns (result: seq<Row>)
    ensures result == Delivered(cursor, failsAfter)
  {
    result := [];
    var done := false;
    while !done
      invariant cursor.None? ==> result == [] && !done
      invariant cursor.Some? ==> |result| <= |cursor.value| && result == cursor.value[..|result|]
      invariant failsAfter.Some? ==> |result| <= failsAfter.value
      invariant done ==> cursor.Some? && |result| == |cursor.value|
      decreases !done, if cursor.Some? then |cursor.value| - |result| else 0
    {
      if cursor.None? || failsAfter == Some(|result|) { return; }
      if |result| < |cursor.value| {
        var temp := CopyRow(cursor.value[|result|]);
        result := result + [temp];
      } else {
        done := true;
      }
    }
  }
}
