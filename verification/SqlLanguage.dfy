/** The part of SQL that the record operations use: a lexer and parser for statement texts with
    numbered placeholders, and the effect of a statement on a table. */
module SqlLanguage {
  import opened Text

  // ----- tables -----

  /** A row, its fields in the order of the table's columns. */
  type Row = seq<string>

  /** A table whose columns are all NOT NULL and whose first column is the primary key. */
  datatype Table = Table(name: string, columns: seq<string>, rows: seq<Row>)

  // ----- tokens -----

  datatype SqlTok = Name(text: string) | Param(index: nat) | Symbol(c: char)

  predicate IsNameChar(c: char) {
    'a' <= c <= 'z' || 'A' <= c <= 'Z' || '0' <= c <= '9' || c == '_'
  }

  /** A table or column name: word characters, not beginning with a digit, and no word of the
      statement syntax. */
  predicate IsName(s: string) {
    && s != "" && !IsDigit(s[0])
    && (forall i :: 0 <= i < |s| ==> IsNameChar(s[i]))
    && s !in {"INSERT", "INTO", "VALUES", "UPDATE", "SET", "DELETE", "SELECT", "FROM", "WHERE", "AND"}
  }

  function NameRun(s: string): (n: nat)
    ensures n <= |s|
  {
    if s != "" && IsNameChar(s[0]) then 1 + NameRun(s[1..]) else 0
  }

  lemma {:induction false} NameRunIs(w: string, r: string)
    requires forall i :: 0 <= i < |w| ==> IsNameChar(w[i])
    requires r != "" ==> !IsNameChar(r[0])
    ensures NameRun(w + r) == |w|
  {
    if w == "" {
      assert w + r == r;
    } else {
      assert (w + r)[1..] == w[1..] + r;
      NameRunIs(w[1..], r);
    }
  }

  /** The tokens of a statement text; blanks separate them. */
  function SqlLex(s: string): seq<SqlTok>
    decreases |s|
  {
    if s == "" then []
    else if s[0] == ' ' then SqlLex(s[1..])
    else if s[0] == '?' && DigitRun(s[1..]) > 0 then
      var n := DigitRun(s[1..]);
      [Param(DigitsValue(s[1..][..n]))] + SqlLex(s[1..][n..])
    else if IsNameChar(s[0]) then [Name(s[..NameRun(s)])] + SqlLex(s[NameRun(s)..])
    else [Symbol(s[0])] + SqlLex(s[1..])
  }

  lemma LexName(w: string, r: string)
    requires w != "" && forall i :: 0 <= i < |w| ==> IsNameChar(w[i])
    requires r != "" ==> !IsNameChar(r[0])
    ensures SqlLex(w + r) == [Name(w)] + SqlLex(r)
  {
    NameRunIs(w, r);
    assert IsNameChar((w + r)[0]);
    assert (w + r)[..|w|] == w && (w + r)[|w|..] == r;
  }

  lemma LexParam(n: nat, r: string)
    requires r != "" ==> !IsDigit(r[0])
    ensures SqlLex("?" + Decimal(n) + r) == [Param(n)] + SqlLex(r)
  {
    var d := Decimal(n);
    DecimalRoundTrip(n);
    DigitRunIs(d, r);
    assert ("?" + d + r)[1..] == d + r;
    assert (d + r)[..|d|] == d && (d + r)[|d|..] == r;
  }

  lemma LexSymbol(c: char, r: string)
    requires c in {'=', ',', ';', '(', ')', '*'}
    ensures SqlLex([c] + r) == [Symbol(c)] + SqlLex(r)
  {
    assert ([c] + r)[1..] == r;
  }

  lemma LexSpace(r: string)
    ensures SqlLex([' '] + r) == SqlLex(r)
  {
    assert ([' '] + r)[1..] == r;
  }

  // ----- statements -----

  /** `column = ?index` */
  datatype Pair = Pair(column: string, index: nat)

  datatype Statement =
    | Insert(table: string, columns: seq<string>, params: seq<nat>)
    | Update(table: string, sets: seq<Pair>, wheres: seq<Pair>)
    | Delete(table: string, wheres: seq<Pair>)
    | Select(table: string, wheres: seq<Pair>)

  datatype Parsed<T> = Parsed(value: T, rest: seq<SqlTok>)

  /** One or more `column = ?index`, separated by `sep`. */
  function ParsePairs(toks: seq<SqlTok>, sep: SqlTok): Option<Parsed<seq<Pair>>>
    decreases |toks|
  {
    if |toks| < 3 || !toks[0].Name? || toks[1] != Symbol('=') || !toks[2].Param? then None
    else
      var p := Pair(toks[0].text, toks[2].index);
      if |toks| == 3 || toks[3] != sep then Some(Parsed([p], toks[3..]))
      else
        match ParsePairs(toks[4..], sep)
        case None => None
        case Some(more) => Some(Parsed([p] + more.value, more.rest))
  }

  /** Names or placeholders, separated by commas and closed by a parenthesis. */
  function ParseList(toks: seq<SqlTok>): Option<Parsed<seq<SqlTok>>>
    decreases |toks|
  {
    if |toks| < 2 || toks[0].Symbol? then None
    else if toks[1] == Symbol(')') then Some(Parsed([toks[0]], toks[2..]))
    else if toks[1] != Symbol(',') then None
    else
      match ParseList(toks[2..])
      case None => None
      case Some(more) => Some(Parsed([toks[0]] + more.value, more.rest))
  }

  /** An optional WHERE clause and an optional semicolon. */
  function ParseWhere(toks: seq<SqlTok>): Option<seq<Pair>> {
    if toks == [] || toks == [Symbol(';')] then Some([])
    else if toks[0] != Name("WHERE") then None
    else
      match ParsePairs(toks[1..], Name("AND"))
      case None => None
      case Some(p) => if p.rest == [] || p.rest == [Symbol(';')] then Some(p.value) else None
  }

  function Names(toks: seq<SqlTok>): Option<seq<string>> {
    if toks == [] then Some([])
    else if !toks[0].Name? || Names(toks[1..]).None? then None
    else Some([toks[0].text] + Names(toks[1..]).value)
  }

  function Params(toks: seq<SqlTok>): Option<seq<nat>> {
    if toks == [] then Some([])
    else if !toks[0].Param? || Params(toks[1..]).None? then None
    else Some([toks[0].index] + Params(toks[1..]).value)
  }

  function ParseInsert(toks: seq<SqlTok>): Option<Statement> {
    if |toks| < 2 || !toks[0].Name? || toks[1] != Symbol('(') then None
    else
      match ParseList(toks[2..])
      case None => None
      case Some(columns) =>
        if |columns.rest| < 2 || columns.rest[..2] != [Name("VALUES"), Symbol('(')] then None
        else
          match ParseList(columns.rest[2..])
          case None => None
          case Some(params) =>
            if params.rest != [Symbol(';')] || Names(columns.value).None? || Params(params.value).None? then None
            else Some(Insert(toks[0].text, Names(columns.value).value, Params(params.value).value))
  }

  function ParseUpdate(toks: seq<SqlTok>): Option<Statement> {
    if |toks| < 2 || !toks[0].Name? || toks[1] != Name("SET") then None
    else
      match ParsePairs(toks[2..], Symbol(','))
      case None => None
      case Some(sets) =>
        match ParseWhere(sets.rest)
        case None => None
        case Some(wheres) => Some(Update(toks[0].text, sets.value, wheres))
  }

  /** The statement that a text is, or None for a syntax error. */
  function ParseSql(toks: seq<SqlTok>): Option<Statement> {
    if 2 <= |toks| && toks[..2] == [Name("INSERT"), Name("INTO")] then ParseInsert(toks[2..])
    else if 1 <= |toks| && toks[0] == Name("UPDATE") then ParseUpdate(toks[1..])
    else if 3 <= |toks| && toks[..2] == [Name("DELETE"), Name("FROM")] && toks[2].Name? then
      match ParseWhere(toks[3..])
      case None => None
      case Some(wheres) => Some(Delete(toks[2].text, wheres))
    else if 4 <= |toks| && toks[..3] == [Name("SELECT"), Symbol('*'), Name("FROM")] && toks[3].Name? then
      match ParseWhere(toks[4..])
      case None => None
      case Some(wheres) => Some(Select(toks[3].text, wheres))
    else None
  }

  // ----- executing a statement -----

  /** The values bound to the numbered placeholders of a statement. */
  type Bindings = map<nat, string>

  function ColumnIndex(columns: seq<string>, column: string): (i: nat)
    requires column in columns
    ensures i < |columns| && columns[i] == column && column !in columns[..i]
  {
    if columns[0] == column then 0 else 1 + ColumnIndex(columns[1..], column)
  }

  predicate UniqueKeys(rows: seq<Row>) {
    && (forall i :: 0 <= i < |rows| ==> rows[i] != [])
    && (forall i, j :: 0 <= i < j < |rows| ==> rows[i][0] != rows[j][0])
  }

  /** What holds of a stored table: named columns, one field per column, a unique first column. */
  predicate TableOk(t: Table) {
    && t.columns != []
    && (forall i, j :: 0 <= i < j < |t.columns| ==> t.columns[i] != t.columns[j])
    && (forall i :: 0 <= i < |t.rows| ==> |t.rows[i]| == |t.columns|)
    && UniqueKeys(t.rows)
  }

  /** Every column is one of the table's and every placeholder is bound. */
  predicate Resolves(t: Table, pairs: seq<Pair>, b: Bindings) {
    forall i :: 0 <= i < |pairs| ==> pairs[i].column in t.columns && pairs[i].index in b
  }

  predicate RowSatisfies(t: Table, row: Row, wheres: seq<Pair>, b: Bindings)
    requires |row| == |t.columns| && Resolves(t, wheres, b)
  {
    forall i :: 0 <= i < |wheres| ==>
      row[ColumnIndex(t.columns, wheres[i].column)] == b[wheres[i].index]
  }

  /** The assignments done one after the other, so the rightmost to a column wins. */
  function AssignRow(t: Table, row: Row, sets: seq<Pair>, b: Bindings): (r: Row)
    requires |row| == |t.columns| && Resolves(t, sets, b)
    ensures |r| == |row|
    decreases |sets|
  {
    if sets == [] then row
    else
      var before := AssignRow(t, row, sets[..|sets| - 1], b);
      var p := sets[|sets| - 1];
      before[ColumnIndex(t.columns, p.column) := b[p.index]]
  }

  function Filter<T>(p: T -> bool, xs: seq<T>): (r: seq<T>) {
    if xs == [] then []
    else (if p(xs[0]) then [xs[0]] else []) + Filter(p, xs[1..])
  }

  function UpdateRow(t: Table, row: Row, sets: seq<Pair>, wheres: seq<Pair>, b: Bindings): (r: Row)
    requires |row| == |t.columns| && Resolves(t, sets, b) && Resolves(t, wheres, b)
    ensures |r| == |row|
  {
    if RowSatisfies(t, row, wheres, b) then AssignRow(t, row, sets, b) else row
  }

  predicate InsertAllowed(t: Table, columns: seq<string>, params: seq<nat>, b: Bindings) {
    && |columns| == |params|
    && (forall i :: 0 <= i < |columns| ==> columns[i] in t.columns)
    && (forall i :: 0 <= i < |t.columns| ==> t.columns[i] in columns)
    && (forall i :: 0 <= i < |params| ==> params[i] in b)
  }

  function InsertRow(t: Table, columns: seq<string>, params: seq<nat>, b: Bindings): (row: Row)
    requires InsertAllowed(t, columns, params, b)
    ensures |row| == |t.columns|
  {
    seq(|t.columns|, i requires 0 <= i < |t.columns| => b[params[ColumnIndex(columns, t.columns[i])]])
  }

  /** The table after a statement, or None when the statement fails: another table's name, an
      unknown column, a placeholder without a value, a column left without one, a repeated key. */
  function Execute(t: Table, s: Statement, b: Bindings): (r: Option<Table>)
    requires TableOk(t)
  {
    if s.table != t.name then None
    else match s
      case Insert(_, columns, params) =>
        if !InsertAllowed(t, columns, params, b) then None
        else
          var rows := t.rows + [InsertRow(t, columns, params, b)];
          if UniqueKeys(rows) then Some(t.(rows := rows)) else None
      case Update(_, sets, wheres) =>
        if !Resolves(t, sets, b) || !Resolves(t, wheres, b) then None
        else
          var rows := seq(|t.rows|, i requires 0 <= i < |t.rows| => UpdateRow(t, t.rows[i], sets, wheres, b));
          if UniqueKeys(rows) then Some(t.(rows := rows)) else None
      case Delete(_, wheres) =>
        if !Resolves(t, wheres, b) then None
        else Some(t.(rows := Filter((r: Row) => |r| == |t.columns| && !RowSatisfies(t, r, wheres, b), t.rows)))
      case Select(_, wheres) =>
        if !Resolves(t, wheres, b) then None else Some(t)
  }

  /** The rows a query steps through, in table order, or None when it cannot be run. */
  function Query(t: Table, s: Statement, b: Bindings): (r: Option<seq<Row>>)
    requires TableOk(t)
  {
    if !s.Select? || s.table != t.name || !Resolves(t, s.wheres, b) then None
    else Some(Filter((r: Row) => |r| == |t.columns| && RowSatisfies(t, r, s.wheres, b), t.rows))
  }

  lemma UniqueTail(rows: seq<Row>)
    requires rows != [] && UniqueKeys(rows)
    ensures UniqueKeys(rows[1..])
  {
    var t := rows[1..];
    forall i, j | 0 <= i < j < |t|
      ensures t[i] != [] && t[j] != [] && t[i][0] != t[j][0]
    {
      assert t[i] == rows[i + 1] && t[j] == rows[j + 1];
    }
  }

  lemma {:induction false} FilterKeeps(p: Row -> bool, rows: seq<Row>, n: nat)
    requires UniqueKeys(rows) && forall i :: 0 <= i < |rows| ==> |rows[i]| == n
    ensures var r := Filter(p, rows);
            && UniqueKeys(r)
            && (forall i :: 0 <= i < |r| ==> |r[i]| == n)
            && (forall row :: row in r <==> row in rows && p(row))
  {
    if rows != [] {
      UniqueTail(rows);
      FilterKeeps(p, rows[1..], n);
      var rest := Filter(p, rows[1..]);
      var r := Filter(p, rows);
      assert forall row :: row in rows <==> row == rows[0] || row in rows[1..];
      if p(rows[0]) {
        assert r == [rows[0]] + rest;
        forall j | 0 <= j < |rest|
          ensures rest[j] != [] && rest[j][0] != rows[0][0]
        {
          assert rest[j] in rows[1..];
        }
      } else {
        assert r == rest;
      }
    }
  }

  /** Any statement, with any values bound, keeps what holds of a stored table. */
  lemma ExecuteKeepsTable(t: Table, s: Statement, b: Bindings)
    requires TableOk(t)
    ensures Execute(t, s, b).Some? ==>
              var u := Execute(t, s, b).value; TableOk(u) && u.name == t.name && u.columns == t.columns
  {
    if s.Delete? && s.table == t.name && Resolves(t, s.wheres, b) {
      FilterKeeps((r: Row) => |r| == |t.columns| && !RowSatisfies(t, r, s.wheres, b), t.rows, |t.columns|);
    }
  }
}
