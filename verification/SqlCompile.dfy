/** How the engine reads the texts of the SQL library: each one lexes and parses to the statement
    that its selectors say, with its placeholders numbered from one upwards. */
module SqlCompile {
  import opened Text
  import opened SqlLanguage
  import opened SqlText

  // ----- the token streams of the texts -----

  predicate Identifiers(table: string, sels: seq<Selector>) {
    IsName(table) && forall i :: 0 <= i < |sels| ==> IsName(sels[i].column)
  }

  predicate EndsParam(r: string) {
    r != "" ==> !IsDigit(r[0])
  }

  predicate SeparatorIs(text: string, tok: SqlTok) {
    (text == "," && tok == Symbol(',')) || (text == " AND " && tok == Name("AND"))
  }

  function PairTokens(column: string, k: nat): seq<SqlTok> {
    [Name(column), Symbol('='), Param(k)]
  }

  function PairsTokens(sels: seq<Selector>, tok: SqlTok, k: nat): seq<SqlTok> {
    if sels == [] then []
    else PairTokens(sels[0].column, k) + (if |sels| > 1 then [tok] else []) + PairsTokens(sels[1..], tok, k + 1)
  }

  function WhereTokens(sels: seq<Selector>, k: nat): seq<SqlTok> {
    if sels == [] then [] else [Name("WHERE")] + (PairsTokens(sels, Name("AND"), k) + [Symbol(';')])
  }

  /** Items separated by commas and closed by a parenthesis. */
  function Listed(items: seq<SqlTok>): seq<SqlTok> {
    if items == [] then []
    else if |items| == 1 then [items[0], Symbol(')')]
    else [items[0], Symbol(',')] + Listed(items[1..])
  }

  function ColumnsOf(sels: seq<Selector>): seq<string> {
    seq(|sels|, i requires 0 <= i < |sels| => sels[i].column)
  }

  function UpTo(n: nat, k: nat): seq<nat> {
    seq(n, i requires 0 <= i < n => k + i)
  }

  function ColumnToks(sels: seq<Selector>): seq<SqlTok> {
    seq(|sels|, i requires 0 <= i < |sels| => Name(sels[i].column))
  }

  function ParamToks(n: nat, k: nat): seq<SqlTok> {
    seq(n, i requires 0 <= i < n => Param(k + i))
  }

  lemma LexPair(column: string, k: nat, r: string)
    requires IsName(column) && EndsParam(r)
    ensures SqlLex(PairText(column, k) + r) == PairTokens(column, k) + SqlLex(r)
  {
    hide SqlLex;
    var p := "?" + Decimal(k) + r;
    assert PairText(column, k) + r == column + (['='] + ([' '] + p));
    LexName(column, ['='] + ([' '] + p));
    LexSymbol('=', [' '] + p);
    LexSpace(p);
    LexParam(k, r);
  }

  lemma LexKeyword(word: string, r: string)
    requires word in {"INSERT", "INTO", "VALUES", "UPDATE", "SET", "DELETE", "SELECT", "FROM", "WHERE", "AND"}
    ensures SqlLex(word + (" " + r)) == [Name(word)] + SqlLex(r)
  {
    hide SqlLex;
    LexName(word, " " + r);
    LexSpace(r);
  }

  lemma LexSeparator(text: string, tok: SqlTok, r: string)
    requires SeparatorIs(text, tok)
    ensures SqlLex(text + r) == [tok] + SqlLex(r) && EndsParam(text + r)
  {
    hide SqlLex;
    if text == "," {
      LexSymbol(',', r);
    } else {
      assert text + r == [' '] + ("AND" + (" " + r));
      LexSpace("AND" + (" " + r));
      LexKeyword("AND", r);
    }
  }

  lemma {:induction false} LexPairs(sels: seq<Selector>, text: string, tok: SqlTok, k: nat, r: string)
    requires SeparatorIs(text, tok) && EndsParam(r)
    requires forall i :: 0 <= i < |sels| ==> IsName(sels[i].column)
    ensures SqlLex(PairsText(sels, text, k) + r) == PairsTokens(sels, tok, k) + SqlLex(r)
  {
    hide SqlLex, PairText, IsName, PairTokens;
    if sels == [] {
      assert PairsText(sels, text, k) + r == r;
    } else {
      var rest := PairsText(sels[1..], text, k + 1) + r;
      var sep := if |sels| > 1 then text else "";
      assert PairsText(sels, text, k) + r == PairText(sels[0].column, k) + (sep + rest);
      LexPairs(sels[1..], text, tok, k + 1, r);
      if |sels| > 1 {
        LexSeparator(text, tok, rest);
      } else {
        assert rest == r && sep + rest == r;
      }
      LexPair(sels[0].column, k, sep + rest);
    }
  }

  lemma LexWhere(opening: string, sels: seq<Selector>, k: nat)
    requires opening == " WHERE " || opening == "WHERE "
    requires forall i :: 0 <= i < |sels| ==> IsName(sels[i].column)
    ensures SqlLex(WhereText(opening, sels, k)) == WhereTokens(sels, k)
    ensures opening == " WHERE " ==> EndsParam(WhereText(opening, sels, k))
  {
    if sels != [] {
      hide *;
      LexPairs(sels, " AND ", Name("AND"), k, ";") by { SeparatorAnd(); }
      LexEnd();
      WhereIs(opening, sels, k);
      LexOpening(opening, PairsText(sels, " AND ", k) + ";");
    }
  }

  lemma SeparatorAnd()
    ensures SeparatorIs(" AND ", Name("AND")) && EndsParam(";") && SeparatorIs(",", Symbol(','))
  {
  }

  lemma WhereIs(opening: string, sels: seq<Selector>, k: nat)
    requires sels != []
    ensures WhereText(opening, sels, k) == opening + (PairsText(sels, " AND ", k) + ";")
    ensures WhereTokens(sels, k) == [Name("WHERE")] + (PairsTokens(sels, Name("AND"), k) + [Symbol(';')])
  {
  }

  lemma LexEnd()
    ensures SqlLex(";") == [Symbol(';')]
  {
    hide SqlLex;
    LexNothing();
    assert ";" == [';'] + "";
    LexSymbol(';', "");
  }

  lemma LexOpening(opening: string, body: string)
    requires opening == " WHERE " || opening == "WHERE "
    ensures SqlLex(opening + body) == [Name("WHERE")] + SqlLex(body)
    ensures opening == " WHERE " ==> EndsParam(opening + body)
  {
    hide SqlLex;
    LexKeyword("WHERE", body);
    assert "WHERE " + body == "WHERE" + (" " + body);
    if opening == " WHERE " {
      LexSpace("WHERE " + body);
      assert opening + body == [' '] + ("WHERE " + body);
    }
  }

  lemma LexNothing()
    ensures SqlLex("") == []
  {
  }

  lemma LexItem(column: string, r: string)
    requires IsName(column)
    ensures SqlLex(column + ("," + r)) == [Name(column), Symbol(',')] + SqlLex(r)
    ensures SqlLex(column + (") VALUES(" + r)) ==
            [Name(column), Symbol(')')] + ([Name("VALUES"), Symbol('(')] + SqlLex(r))
  {
    hide SqlLex;
    LexSymbol(',', r);
    LexName(column, [','] + r);
    assert "," + r == [','] + r;
    var values := ['('] + r;
    assert ") VALUES(" + r == [')'] + ([' '] + ("VALUES" + values));
    LexSymbol('(', r);
    LexName("VALUES", values);
    LexSpace("VALUES" + values);
    LexSymbol(')', [' '] + ("VALUES" + values));
    LexName(column, [')'] + ([' '] + ("VALUES" + values)));
  }

  lemma {:induction false} LexColumns(sels: seq<Selector>, r: string)
    requires sels != [] && forall i :: 0 <= i < |sels| ==> IsName(sels[i].column)
    ensures SqlLex(ColumnsText(sels) + r) == Listed(ColumnToks(sels)) + ([Name("VALUES"), Symbol('(')] + SqlLex(r))
  {
    hide SqlLex, IsName;
    var rest := ColumnsText(sels[1..]) + r;
    var end := if |sels| > 1 then "," else ") VALUES(";
    assert ColumnsText(sels) + r == sels[0].column + (end + rest);
    LexItem(sels[0].column, rest);
    assert ColumnToks(sels) == [Name(sels[0].column)] + ColumnToks(sels[1..]);
    if |sels| > 1 {
      LexColumns(sels[1..], r);
      assert ColumnToks(sels)[1..] == ColumnToks(sels[1..]);
    } else {
      assert rest == r;
    }
  }

  lemma LexPlaceholder(k: nat, r: string)
    ensures SqlLex("?" + Decimal(k) + ("," + r)) == [Param(k), Symbol(',')] + SqlLex(r)
    ensures SqlLex("?" + Decimal(k) + ");") == [Param(k), Symbol(')')] + [Symbol(';')]
  {
    hide SqlLex, Decimal;
    assert "," + r == [','] + r && ");" == [')'] + ";";
    LexSymbol(',', r);
    LexParam(k, [','] + r);
    LexEnd();
    LexSymbol(')', ";");
    LexParam(k, [')'] + ";");
  }

  lemma {:induction false} LexPlaceholders(n: nat, k: nat)
    requires n != 0
    ensures SqlLex(PlaceholdersText(n, k)) == Listed(ParamToks(n, k)) + [Symbol(';')]
  {
    hide SqlLex, Decimal;
    var rest := PlaceholdersText(n - 1, k + 1);
    LexPlaceholder(k, rest);
    assert ParamToks(n, k) == [Param(k)] + ParamToks(n - 1, k + 1);
    if n > 1 {
      LexPlaceholders(n - 1, k + 1);
      assert PlaceholdersText(n, k) == "?" + Decimal(k) + ("," + rest);
      assert ParamToks(n, k)[1..] == ParamToks(n - 1, k + 1);
    } else {
      assert rest == "";
      assert PlaceholdersText(n, k) == "?" + Decimal(k) + ");";
    }
  }

  // ----- parsing the token streams -----

  function PairsOf(sels: seq<Selector>, k: nat): seq<Pair> {
    seq(|sels|, i requires 0 <= i < |sels| => Pair(sels[i].column, k + i))
  }

  lemma ParseOnePair(column: string, k: nat, tok: SqlTok, more: seq<SqlTok>)
    ensures ParsePairs(PairTokens(column, k) + more, tok) ==
            if more == [] || more[0] != tok then Some(Parsed([Pair(column, k)], more))
            else
              match ParsePairs(more[1..], tok)
              case None => None
              case Some(rest) => Some(Parsed([Pair(column, k)] + rest.value, rest.rest))
  {
    var toks := PairTokens(column, k) + more;
    assert toks[3..] == more;
    if more != [] {
      assert toks[4..] == more[1..] && toks[3] == more[0];
    }
  }

  lemma PairsOfCons(sels: seq<Selector>, k: nat)
    requires sels != []
    ensures PairsOf(sels, k) == [Pair(sels[0].column, k)] + PairsOf(sels[1..], k + 1)
  {
  }

  lemma PairsTokensCons(sels: seq<Selector>, tok: SqlTok, k: nat, rest: seq<SqlTok>)
    requires sels != []
    ensures PairsTokens(sels, tok, k) + rest ==
            PairTokens(sels[0].column, k)
            + ((if |sels| > 1 then [tok] else []) + (PairsTokens(sels[1..], tok, k + 1) + rest))
  {
  }

  lemma {:induction false} ParseThePairs(sels: seq<Selector>, tok: SqlTok, k: nat, rest: seq<SqlTok>)
    requires sels != [] && (rest != [] ==> rest[0] != tok)
    ensures ParsePairs(PairsTokens(sels, tok, k) + rest, tok) == Some(Parsed(PairsOf(sels, k), rest))
  {
    hide *;
    var tail := PairsTokens(sels[1..], tok, k + 1) + rest;
    var more := (if |sels| > 1 then [tok] else []) + tail;
    PairsTokensCons(sels, tok, k, rest);
    ParseOnePair(sels[0].column, k, tok, more);
    PairsOfCons(sels, k);
    if |sels| == 1 {
      NoPairs(tok, k + 1);
      assert sels[1..] == [];
      assert more == rest;
      assert [Pair(sels[0].column, k)] + [] == [Pair(sels[0].column, k)];
    } else {
      assert more[1..] == tail && more[0] == tok;
      ParseThePairs(sels[1..], tok, k + 1, rest);
    }
  }

  lemma NoPairs(tok: SqlTok, k: nat)
    ensures PairsTokens([], tok, k) == [] && PairsOf([], k) == []
  {
  }

  lemma ParseTheWhere(sels: seq<Selector>, k: nat)
    ensures ParseWhere(WhereTokens(sels, k)) == Some(PairsOf(sels, k))
  {
    var toks := WhereTokens(sels, k);
    if sels != [] {
      assert toks[1..] == PairsTokens(sels, Name("AND"), k) + [Symbol(';')];
      ParseThePairs(sels, Name("AND"), k, [Symbol(';')]);
      assert toks[0] != Symbol(';');
    } else {
      assert PairsOf(sels, k) == [];
    }
  }

  lemma {:induction false} ParseTheList(items: seq<SqlTok>, rest: seq<SqlTok>)
    requires items != [] && forall i :: 0 <= i < |items| ==> !items[i].Symbol?
    ensures ParseList(Listed(items) + rest) == Some(Parsed(items, rest))
  {
    var toks := Listed(items) + rest;
    if |items| == 1 {
      assert toks[2..] == rest;
      assert items == [items[0]];
    } else {
      assert toks[2..] == Listed(items[1..]) + rest;
      ParseTheList(items[1..], rest);
      assert items == [items[0]] + items[1..];
    }
  }

  lemma {:induction false} ReadTheNames(sels: seq<Selector>)
    ensures Names(ColumnToks(sels)) == Some(ColumnsOf(sels))
  {
    if sels == [] {
      assert ColumnsOf(sels) == [];
    } else {
      ReadTheNames(sels[1..]);
      assert ColumnToks(sels)[1..] == ColumnToks(sels[1..]);
      assert ColumnsOf(sels) == [sels[0].column] + ColumnsOf(sels[1..]);
    }
  }

  lemma {:induction false} ReadTheParams(n: nat, k: nat)
    ensures Params(ParamToks(n, k)) == Some(UpTo(n, k))
  {
    if n == 0 {
      assert UpTo(n, k) == [];
    } else {
      ReadTheParams(n - 1, k + 1);
      assert ParamToks(n, k)[1..] == ParamToks(n - 1, k + 1);
      assert UpTo(n, k) == [k] + UpTo(n - 1, k + 1);
    }
  }

  // ----- whole statements -----

  /** What the engine makes of a text. */
  function Read(text: string): Option<Statement> {
    ParseSql(SqlLex(text))
  }

  lemma LexInsertHead(table: string, body: string)
    requires IsName(table)
    ensures SqlLex("INSERT INTO " + table + "(" + body) ==
            [Name("INSERT"), Name("INTO")] + ([Name(table), Symbol('(')] + SqlLex(body))
  {
    hide SqlLex;
    var rest := table + (['('] + body);
    assert "INSERT INTO " + table + "(" + body == "INSERT" + (" " + ("INTO" + (" " + rest)));
    LexKeyword("INSERT", "INTO" + (" " + rest));
    LexKeyword("INTO", rest);
    LexName(table, ['('] + body);
    LexSymbol('(', body);
  }

  lemma ReadInsertToks(toks: seq<SqlTok>)
    ensures ParseSql([Name("INSERT"), Name("INTO")] + toks) == ParseInsert(toks)
  {
    var all := [Name("INSERT"), Name("INTO")] + toks;
    assert all[..2] == [Name("INSERT"), Name("INTO")] && all[2..] == toks;
  }

  lemma ParseInsertToks(table: string, sels: seq<Selector>)
    requires sels != []
    ensures ParseInsert([Name(table), Symbol('(')]
                        + (Listed(ColumnToks(sels))
                           + ([Name("VALUES"), Symbol('(')] + (Listed(ParamToks(|sels|, 1)) + [Symbol(';')]))))
            == Some(Insert(table, ColumnsOf(sels), UpTo(|sels|, 1)))
  {
    var params := Listed(ParamToks(|sels|, 1)) + [Symbol(';')];
    var tail := [Name("VALUES"), Symbol('(')] + params;
    var toks := [Name(table), Symbol('(')] + (Listed(ColumnToks(sels)) + tail);
    assert toks[2..] == Listed(ColumnToks(sels)) + tail;
    assert tail[..2] == [Name("VALUES"), Symbol('(')] && tail[2..] == params;
    ParseTheList(ColumnToks(sels), tail);
    ParseTheList(ParamToks(|sels|, 1), [Symbol(';')]);
    ReadTheNames(sels);
    ReadTheParams(|sels|, 1);
  }

  lemma InsertsNothing(table: string, sels: seq<Selector>)
    requires sels == []
    ensures SqlLex(ColumnsText(sels) + PlaceholdersText(|sels|, 1)) == []
    ensures ParseInsert([Name(table), Symbol('(')] + []) == None
  {
    assert ([Name(table), Symbol('(')] + [])[2..] == [];
  }

  /** The INSERT text names every selector's column in order and numbers its placeholders 1 to n;
      with no selectors it is a syntax error. */
  lemma InsertReads(table: string, sels: seq<Selector>)
    requires Identifiers(table, sels)
    ensures Read(InsertText(table, sels)) ==
            if sels == [] then None else Some(Insert(table, ColumnsOf(sels), UpTo(|sels|, 1)))
  {
    hide ParseInsert, SqlLex, ParseSql, Listed, ColumnsText, PlaceholdersText, IsName;
    var body := ColumnsText(sels) + PlaceholdersText(|sels|, 1);
    LexInsertHead(table, body);
    ReadInsertToks([Name(table), Symbol('(')] + SqlLex(body));
    if sels == [] {
      InsertsNothing(table, sels);
    } else {
      LexColumns(sels, PlaceholdersText(|sels|, 1));
      LexPlaceholders(|sels|, 1);
      ParseInsertToks(table, sels);
    }
  }

  lemma LexUpdateHead(table: string, body: string)
    requires IsName(table)
    ensures SqlLex("UPDATE " + table + " SET " + body) ==
            [Name("UPDATE")] + ([Name(table), Name("SET")] + SqlLex(body))
  {
    hide SqlLex;
    var rest := "SET" + (" " + body);
    assert "UPDATE " + table + " SET " + body == "UPDATE" + (" " + (table + (" " + rest)));
    LexKeyword("UPDATE", table + (" " + rest));
    LexName(table, " " + rest);
    LexSpace(rest);
    LexKeyword("SET", body);
  }

  lemma ReadUpdateToks(toks: seq<SqlTok>)
    ensures ParseSql([Name("UPDATE")] + toks) == ParseUpdate(toks)
  {
    var all := [Name("UPDATE")] + toks;
    assert all[0] == Name("UPDATE") && all[1..] == toks;
    assert 2 <= |all| ==> all[..2][0] == Name("UPDATE");
  }

  lemma ParseUpdateToks(table: string, sets: seq<Selector>, wheres: seq<Selector>)
    ensures ParseUpdate([Name(table), Name("SET")]
                        + (PairsTokens(sets, Symbol(','), 1) + WhereTokens(wheres, 1 + |sets|)))
            == if sets == [] then None else Some(Update(table, PairsOf(sets, 1), PairsOf(wheres, 1 + |sets|)))
  {
    var rest := WhereTokens(wheres, 1 + |sets|);
    var toks := [Name(table), Name("SET")] + (PairsTokens(sets, Symbol(','), 1) + rest);
    assert toks[2..] == PairsTokens(sets, Symbol(','), 1) + rest;
    WhereShape(wheres, 1 + |sets|);
    if sets == [] {
      assert toks[2..] == rest;
    } else {
      ParseThePairs(sets, Symbol(','), 1, rest);
      ParseTheWhere(wheres, 1 + |sets|);
    }
  }

  /** A WHERE clause opens with a name, and is no list of assignments. */
  lemma WhereShape(wheres: seq<Selector>, k: nat)
    ensures WhereTokens(wheres, k) != [] ==> WhereTokens(wheres, k)[0] == Name("WHERE")
    ensures ParsePairs(WhereTokens(wheres, k), Symbol(',')) == None
  {
    var toks := WhereTokens(wheres, k);
    if wheres != [] {
      assert toks[1] == Name(wheres[0].column);
    }
  }

  /** The UPDATE text numbers the placeholders of its assignments 1 to n and those of its conditions
      n + 1 to n + m; with nothing to set it is a syntax error. */
  lemma UpdateReads(table: string, sets: seq<Selector>, wheres: seq<Selector>)
    requires Identifiers(table, sets) && Identifiers(table, wheres)
    ensures Read(UpdateText(table, sets, wheres)) ==
            if sets == [] then None else Some(Update(table, PairsOf(sets, 1), PairsOf(wheres, 1 + |sets|)))
  {
    hide ParseUpdate, SqlLex, ParseSql, PairsText, WhereText, PairsTokens, WhereTokens, IsName;
    var conditions := WhereText(" WHERE ", wheres, 1 + |sets|);
    var body := PairsText(sets, ",", 1) + conditions;
    LexUpdateHead(table, body);
    ReadUpdateToks([Name(table), Name("SET")] + SqlLex(body));
    LexWhere(" WHERE ", wheres, 1 + |sets|);
    LexPairs(sets, ",", Symbol(','), 1, conditions);
    ParseUpdateToks(table, sets, wheres);
  }

  lemma LexFromHead(table: string, body: string)
    requires IsName(table)
    ensures SqlLex("DELETE FROM " + table + " " + body) ==
            [Name("DELETE"), Name("FROM")] + ([Name(table)] + SqlLex(body))
    ensures SqlLex("SELECT * FROM " + table + " " + body) ==
            [Name("SELECT"), Symbol('*'), Name("FROM")] + ([Name(table)] + SqlLex(body))
  {
    hide SqlLex;
    var from := "FROM" + (" " + (table + (" " + body)));
    LexName(table, " " + body);
    LexSpace(body);
    LexKeyword("FROM", table + (" " + body));
    assert "DELETE FROM " + table + " " + body == "DELETE" + (" " + from);
    LexKeyword("DELETE", from);
    assert "SELECT * FROM " + table + " " + body == "SELECT" + (" " + (['*'] + ([' '] + from)));
    LexSpace(from);
    LexSymbol('*', [' '] + from);
    LexKeyword("SELECT", ['*'] + ([' '] + from));
  }

  lemma ReadFromToks(table: string, toks: seq<SqlTok>)
    ensures ParseSql([Name("DELETE"), Name("FROM")] + ([Name(table)] + toks)) ==
            match ParseWhere(toks) case None => None case Some(wheres) => Some(Delete(table, wheres))
    ensures ParseSql([Name("SELECT"), Symbol('*'), Name("FROM")] + ([Name(table)] + toks)) ==
            match ParseWhere(toks) case None => None case Some(wheres) => Some(Select(table, wheres))
  {
    hide ParseWhere;
    var all := [Name("DELETE"), Name("FROM")] + ([Name(table)] + toks);
    assert all[0] == Name("DELETE") && all[..2] == [Name("DELETE"), Name("FROM")] && all[3..] == toks;
    assert all[..2][0] != Name("INSERT");
    var some := [Name("SELECT"), Symbol('*'), Name("FROM")] + ([Name(table)] + toks);
    assert some[0] == Name("SELECT") && some[..3] == [Name("SELECT"), Symbol('*'), Name("FROM")] && some[4..] == toks;
    assert some[..2][0] == Name("SELECT");
  }

  /** The DELETE and SELECT texts carry one condition per selector, with placeholders 1 to n. */
  lemma FromReads(table: string, sels: seq<Selector>)
    requires Identifiers(table, sels)
    ensures Read(DeleteText(table, sels)) == Some(Delete(table, PairsOf(sels, 1)))
    ensures Read(SelectText(table, sels)) == Some(Select(table, PairsOf(sels, 1)))
  {
    hide SqlLex, ParseSql, ParseWhere, WhereText, WhereTokens, IsName;
    LexWhere("WHERE ", sels, 1);
    LexFromHead(table, WhereText("WHERE ", sels, 1));
    ReadFromToks(table, WhereTokens(sels, 1));
    ParseTheWhere(sels, 1);
  }
}
