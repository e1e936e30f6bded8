/** The statement texts of the SQL library: selectors are compiled into a text with numbered
    placeholders and a list of values bound to them. */
module SqlText {
  import opened Text
  import opened SqlLanguage

  /** One pair of a `query_params`: a column and its value. */
  datatype Selector = Selector(column: string, value: string)

  /** What `c_str()` hands to the engine: the text in front of the first NUL. */
  function CString(s: string): (r: string)
    ensures r <= s
  {
    if s == "" || s[0] == '\0' then "" else [s[0]] + CString(s[1..])
  }

  lemma {:induction false} CStringIs(s: string)
    ensures '\0' !in CString(s)
    ensures CString(s) == s <==> '\0' !in s
  {
    if s != "" && s[0] != '\0' {
      CStringIs(s[1..]);
      assert s == [s[0]] + s[1..];
      assert forall c :: c in CString(s) <==> c == s[0] || c in CString(s[1..]);
    }
  }

  /** A value reaches the engine up to its first NUL. */
  lemma {:induction false} CStringCuts(a: string, b: string)
    requires '\0' !in a
    ensures CString(a + (['\0'] + b)) == a
  {
    if a == "" {
      assert a + (['\0'] + b) == ['\0'] + b;
    } else {
      assert (a + (['\0'] + b))[1..] == a[1..] + (['\0'] + b);
      CStringCuts(a[1..], b);
    }
  }

  // ----- statement texts and bound values -----

  function PairText(column: string, k: nat): string {
    column + "= ?" + Decimal(k)
  }

  /** `column= ?k` for each selector, with placeholders counted up from `k`. */
  function PairsText(sels: seq<Selector>, separator: string, k: nat): string {
    if sels == [] then ""
    else PairText(sels[0].column, k) + (if |sels| > 1 then separator else "") + PairsText(sels[1..], separator, k + 1)
  }

  function WhereText(opening: string, sels: seq<Selector>, k: nat): string {
    if sels == [] then "" else opening + (PairsText(sels, " AND ", k) + ";")
  }

  function ColumnsText(sels: seq<Selector>): string {
    if sels == [] then ""
    else sels[0].column + (if |sels| > 1 then "," else ") VALUES(") + ColumnsText(sels[1..])
  }

  function PlaceholdersText(n: nat, k: nat): string {
    if n == 0 then ""
    else "?" + Decimal(k) + (if n > 1 then "," else ");") + PlaceholdersText(n - 1, k + 1)
  }

  function InsertText(table: string, sels: seq<Selector>): string {
    "INSERT INTO " + table + "(" + (ColumnsText(sels) + PlaceholdersText(|sels|, 1))
  }

  function UpdateText(table: string, sets: seq<Selector>, wheres: seq<Selector>): string {
    "UPDATE " + table + " SET " + (PairsText(sets, ",", 1) + WhereText(" WHERE ", wheres, 1 + |sets|))
  }

  function DeleteText(table: string, sels: seq<Selector>): string {
    "DELETE FROM " + table + " " + WhereText("WHERE ", sels, 1)
  }

  function SelectText(table: string, sels: seq<Selector>): string {
    "SELECT * FROM " + table + " " + WhereText("WHERE ", sels, 1)
  }

  function ValueFor(sels: seq<Selector>, placeholder: nat): string
    requires 1 <= placeholder <= |sels|
  {
    CString(sels[placeholder - 1].value)
  }

  /** Placeholder `1 + i` is bound to the value of selector `i`. */
  function Bound(sels: seq<Selector>): Bindings {
    map i: nat | 1 <= i <= |sels| :: ValueFor(sels, i)
  }

  // ----- building the texts -----

  lemma Empty(a: string)
    ensures a + "" == a
  {
  }

  /** The loop that appends `column= ?k` pairs. */
  method AppendPairs(before: string, sels: seq<Selector>, separator: string, bindParam: nat)
    returns (q: string, next: nat)
    ensures q == before + PairsText(sels, separator, bindParam)
    ensures next == bindParam + |sels|
  {
    q, next := before, bindParam;
    for i := 0 to |sels|
      invariant next == bindParam + i
      invariant q + PairsText(sels[i..], separator, next) == before + PairsText(sels, separator, bindParam)
    {
      ghost var rest := PairsText(sels[i + 1..], separator, next + 1);
      assert sels[i..][1..] == sels[i + 1..];
      Concatenation(q, PairText(sels[i].column, next) + (if |sels[i..]| > 1 then separator else ""), rest);
      Concatenation(q, PairText(sels[i].column, next), if |sels[i..]| > 1 then separator else "");
      q := q + PairText(sels[i].column, next);
      Empty(q);
      if i != |sels| - 1 { q := q + separator; }
      next := next + 1;
    }
    Empty(q);
  }

  /** The loop that appends the column names of an insertion. */
  method AppendColumns(before: string, sels: seq<Selector>) returns (q: string)
    ensures q == before + ColumnsText(sels)
  {
    q := before;
    for i := 0 to |sels|
      invariant q + ColumnsText(sels[i..]) == before + ColumnsText(sels)
    {
      ghost var end := if |sels[i..]| > 1 then "," else ") VALUES(";
      assert sels[i..][1..] == sels[i + 1..];
      Concatenation(q, sels[i].column + end, ColumnsText(sels[i + 1..]));
      Concatenation(q, sels[i].column, end);
      q := q + sels[i].column;
      if i != |sels| - 1 { q := q + ","; } else { q := q + ") VALUES("; }
    }
    Empty(q);
  }

  /** The loop that appends the placeholders of an insertion. */
  method AppendPlaceholders(before: string, n: nat) returns (q: string)
    ensures q == before + PlaceholdersText(n, 1)
  {
    q := before;
    for i := 0 to n
      invariant q + PlaceholdersText(n - i, 1 + i) == before + PlaceholdersText(n, 1)
    {
      ghost var end := if n - i > 1 then "," else ");";
      var bindParam := i + 1;
      Concatenation(q, "?" + Decimal(bindParam) + end, PlaceholdersText(n - i - 1, 2 + i));
      Concatenation(q, "?" + Decimal(bindParam), end);
      q := q + ("?" + Decimal(bindParam));
      if i != n - 1 { q := q + ","; } else { q := q + ");"; }
    }
    Empty(q);
  }

  /** The loop that binds values to placeholders, counting on from those already bound. */
  method BindAll(stmt: Bindings, bound: seq<Selector>, sels: seq<Selector>) returns (b: Bindings)
    requires stmt == Bound(bound)
    ensures b == Bound(bound + sels)
  {
    b := stmt;
    assert bound + sels[..0] == bound;
    for i := 0 to |sels|
      invariant b == Bound(bound + sels[..i])
    {
      var bindParam := |bound| + i + 1;
      assert bound + sels[..i + 1] == (bound + sels[..i]) + [sels[i]];
      b := b[bindParam := CString(sels[i].value)];
    }
    assert sels[..|sels|] == sels;
  }

  method PrepareInsert(table: string, sels: seq<Selector>) returns (q: string, b: Bindings)
    ensures q == InsertText(table, sels) && b == Bound(sels)
  {
    q := "INSERT INTO " + table + "(";
    Concatenation(q, ColumnsText(sels), PlaceholdersText(|sels|, 1));
    q := AppendColumns(q, sels);
    q := AppendPlaceholders(q, |sels|);
    b := BindAll(map[], [], sels);
    assert [] + sels == sels;
  }

  method PrepareUpdate(table: string, sets: seq<Selector>, wheres: seq<Selector>) returns (q: string, b: Bindings)
    ensures q == UpdateText(table, sets, wheres) && b == Bound(sets + wheres)
  {
    var bindParam: nat;
    var head := "UPDATE " + table + " SET ";
    q, bindParam := AppendPairs(head, sets, ",", 1);
    Concatenation(head, PairsText(sets, ",", 1), WhereText(" WHERE ", wheres, 1 + |sets|));
    q := AppendWhere(q, " WHERE ", wheres, bindParam);
    b := BindAll(map[], [], sets);
    assert [] + sets == sets;
    b := BindAll(b, sets, wheres);
  }

  /** The WHERE clause: its keyword before the first pair, a semicolon after the last. */
  method AppendWhere(before: string, opening: string, sels: seq<Selector>, bindParam: nat) returns (q: string)
    ensures q == before + WhereText(opening, sels, bindParam)
  {
    q := before;
    if |sels| != 0 {
      Concatenation(before, opening, PairsText(sels, " AND ", bindParam) + ";");
      Concatenation(before + opening, PairsText(sels, " AND ", bindParam), ";");
      var next;
      q, next := AppendPairs(q + opening, sels, " AND ", bindParam);
      q := q + ";";
    } else {
      Empty(q);
    }
  }

  method PrepareDelete(table: string, sels: seq<Selector>) returns (q: string, b: Bindings)
    ensures q == DeleteText(table, sels) && b == Bound(sels)
  {
    q := AppendWhere("DELETE FROM " + table + " ", "WHERE ", sels, 1);
    b := BindAll(map[], [], sels);
    assert [] + sels == sels;
  }

  method PrepareSelect(table: string, sels: seq<Selector>) returns (q: string, b: Bindings)
    ensures q == SelectText(table, sels) && b == Bound(sels)
  {
    q := AppendWhere("SELECT * FROM " + table + " ", "WHERE ", sels, 1);
    b := BindAll(map[], [], sels);
    assert [] + sels == sels;
  }
}
