/** What the text of a status page shows: reading the number and the rows back from the markup. */
module StatusPage {
  import opened Text
  import opened StatusRecorder

  /** A row of either table. */
  datatype Cells = Cells(left: string, right: string)

  datatype Shown = Shown(number: nat, requests: seq<Cells>, prefixes: seq<Cells>)

  const ROW := "<tr><td>"
  const NEXT := "</td><td>"
  const END_ROW := "</td></tr>"

  function Strip(prefix: string, s: string): (r: Option<string>)
    ensures r.Some? ==> |r.value| + |prefix| == |s|
  {
    if prefix <= s then Some(s[|prefix|..]) else None
  }

  lemma StripFront(prefix: string, s: string)
    ensures Strip(prefix, prefix + s) == Some(s)
  {
  }

  /** The length of the text in front of the next tag. */
  function CellLength(s: string): (n: nat)
    ensures n <= |s|
  {
    if s == "" || s[0] == '<' then 0 else 1 + CellLength(s[1..])
  }

  predicate NoTag(s: string) {
    '<' !in s
  }

  lemma {:induction false} CellLengthIs(cell: string, r: string)
    requires NoTag(cell) && r != "" && r[0] == '<'
    ensures CellLength(cell + r) == |cell|
  {
    if cell == "" {
      assert cell + r == r;
    } else {
      assert (cell + r)[1..] == cell[1..] + r;
      CellLengthIs(cell[1..], r);
    }
  }

  datatype Rows = Rows(rows: seq<Cells>, rest: string)

  /** The row at the front of a text, if there is a whole one. */
  function ReadRow(s: string): (r: Option<(Cells, string)>)
    ensures r.Some? ==> |r.value.1| < |s|
  {
    match Strip(ROW, s)
    case None => None
    case Some(t) =>
      var n := CellLength(t);
      match Strip(NEXT, t[n..])
      case None => None
      case Some(u) =>
        var m := CellLength(u);
        match Strip(END_ROW, u[m..])
        case None => None
        case Some(v) => Some((Cells(t[..n], u[..m]), v))
  }

  function ReadRows(s: string): (r: Rows)
    ensures |r.rest| <= |s|
    decreases |s|
  {
    match ReadRow(s)
    case None => Rows([], s)
    case Some(row) =>
      var more := ReadRows(row.1);
      Rows([row.0] + more.rows, more.rest)
  }

  /** The page that a text shows. */
  function ReadPage(text: string): Option<Shown> {
    match ReadNumber(text)
    case None => None
    case Some(head) =>
      var requests := if head.0 == 0 then Rows([], StripOr(NO_REQUEST, head.1)) else ReadRows(head.1);
      match Strip(PREFIXES_HEAD, requests.rest)
      case None => None
      case Some(t) =>
        var prefixes := if NO_PREFIX <= t then Rows([], t[|NO_PREFIX|..]) else ReadRows(t);
        if prefixes.rest == FOOT then Some(Shown(head.0, requests.rows, prefixes.rows)) else None
  }

  function StripOr(prefix: string, s: string): string {
    if Strip(prefix, s).Some? then Strip(prefix, s).value else ""
  }

  /** The number at the top of the page, and what follows it. */
  function ReadNumber(text: string): Option<(nat, string)> {
    match Strip(HEAD, text)
    case None => None
    case Some(t) =>
      var n := DigitRun(t);
      match Strip(REQUESTS_HEAD, t[n..])
      case None => None
      case Some(u) => if n == 0 then None else Some((DigitsValue(t[..n]), u))
  }

  // ----- rows -----

  function RowsText(rows: seq<Cells>): string {
    if rows == [] then "" else RowText(rows[0].left, rows[0].right) + RowsText(rows[1..])
  }

  predicate NoTags(rows: seq<Cells>) {
    forall i :: 0 <= i < |rows| ==> NoTag(rows[i].left) && NoTag(rows[i].right)
  }

  lemma {:induction false} RowsTextSnoc(rows: seq<Cells>, row: Cells)
    ensures RowsText(rows + [row]) == RowsText(rows) + RowText(row.left, row.right)
  {
    hide RowText;
    if rows == [] {
      assert rows + [row] == [row] && [row][1..] == [];
    } else {
      assert (rows + [row])[1..] == rows[1..] + [row];
      RowsTextSnoc(rows[1..], row);
      Concatenation(RowText(rows[0].left, rows[0].right), RowsText(rows[1..]), RowText(row.left, row.right));
    }
  }

  lemma RowTextIs(row: Cells, s: string)
    ensures RowText(row.left, row.right) + s == ROW + (row.left + (NEXT + (row.right + (END_ROW + s))))
  {
  }

  lemma CellThen(cell: string, tag: string, s: string)
    requires NoTag(cell) && tag != "" && tag[0] == '<'
    ensures var t := cell + (tag + s);
            var n := CellLength(t);
            t[..n] == cell && Strip(tag, t[n..]) == Some(s)
  {
    var t := cell + (tag + s);
    CellLengthIs(cell, tag + s);
    assert t[..|cell|] == cell && t[|cell|..] == tag + s;
    StripFront(tag, s);
  }

  lemma ReadOneRow(row: Cells, s: string)
    requires NoTag(row.left) && NoTag(row.right)
    ensures ReadRow(RowText(row.left, row.right) + s) == Some((row, s))
  {
    hide NoTag, CellLength, Strip, RowText;
    RowTextIs(row, s);
    StripFront(ROW, row.left + (NEXT + (row.right + (END_ROW + s))));
    CellThen(row.left, NEXT, row.right + (END_ROW + s));
    CellThen(row.right, END_ROW, s);
  }

  lemma {:induction false} ReadTheRows(rows: seq<Cells>, rest: string)
    requires NoTags(rows) && ReadRow(rest).None?
    ensures ReadRows(RowsText(rows) + rest) == Rows(rows, rest)
  {
    hide ReadRow, RowText;
    if rows == [] {
      assert RowsText(rows) + rest == rest;
    } else {
      var tail := RowsText(rows[1..]) + rest;
      Concatenation(RowText(rows[0].left, rows[0].right), RowsText(rows[1..]), rest);
      ReadOneRow(rows[0], tail);
      ReadTheRows(rows[1..], rest);
      assert rows == [rows[0]] + rows[1..];
    }
  }

  // ----- the page -----

  function RequestCells(list: seq<Request>): seq<Cells> {
    seq(|list|, i requires 0 <= i < |list| => Cells(list[i].url, Decimal(list[i].code)))
  }

  function PrefixCells(list: seq<Route>): seq<Cells> {
    seq(|list|, i requires 0 <= i < |list| => Cells(list[i].uri, list[i].handler))
  }

  lemma {:induction false} RequestRowsAre(list: seq<Request>)
    ensures RequestRows(list) == RowsText(RequestCells(list))
    decreases |list|
  {
    if list != [] {
      hide RowText, Decimal;
      RequestRowsAre(Front(list));
      var last := Cells(Back(list).url, Decimal(Back(list).code));
      assert RequestCells(list) == RequestCells(Front(list)) + [last];
      RowsTextSnoc(RequestCells(Front(list)), last);
    }
  }

  lemma {:induction false} PrefixRowsAre(list: seq<Route>)
    ensures PrefixRows(list) == RowsText(PrefixCells(list))
    decreases |list|
  {
    if list != [] {
      hide RowText;
      PrefixRowsAre(Front(list));
      var last := Cells(Back(list).uri, Back(list).handler);
      assert PrefixCells(list) == PrefixCells(Front(list)) + [last];
      RowsTextSnoc(PrefixCells(Front(list)), last);
    }
  }

  function RequestsPart(page: Page): string {
    if page.number == 0 then NO_REQUEST else RequestRows(page.requests)
  }

  function PrefixesPart(page: Page): string {
    if page.prefixes == [] then NO_PREFIX else PrefixRows(page.prefixes)
  }

  /** What follows the number's line. */
  function Tables(page: Page): string {
    RequestsPart(page) + (PREFIXES_HEAD + (PrefixesPart(page) + FOOT))
  }

  lemma TextOf(page: Page)
    ensures page.Text() == HEAD + (Decimal(page.number) + (REQUESTS_HEAD + Tables(page)))
  {
    hide Decimal, RequestRows, PrefixRows;
    var a, b := RequestsPart(page), PrefixesPart(page);
    assert page.Text() == HEAD + Decimal(page.number) + REQUESTS_HEAD + a + PREFIXES_HEAD + b + FOOT;
    Regroup(HEAD, Decimal(page.number), REQUESTS_HEAD, a, PREFIXES_HEAD, b, FOOT);
  }

  lemma Regroup(a: string, b: string, c: string, d: string, e: string, f: string, g: string)
    ensures a + b + c + d + e + f + g == a + (b + (c + (d + (e + (f + g)))))
  {
  }

  /** The number is read back from every page, whatever its rows hold. */
  lemma NumberIsShown(page: Page)
    ensures ReadNumber(page.Text()) == Some((page.number, Tables(page)))
  {
    var digits, tail := Decimal(page.number), REQUESTS_HEAD + Tables(page);
    TextOf(page);
    DecimalRoundTrip(page.number);
    hide Tables, Decimal, Strip, DigitsValue, DigitRun;
    StripFront(HEAD, digits + tail);
    assert tail[0] == REQUESTS_HEAD[0] && REQUESTS_HEAD[0] == "</p>"[0];
    DigitRunIs(digits, tail);
    assert (digits + tail)[..|digits|] == digits && (digits + tail)[|digits|..] == tail;
    StripFront(REQUESTS_HEAD, Tables(page));
  }

  lemma NoRowHere(rest: string)
    ensures ReadRow(PREFIXES_HEAD + rest).None? && ReadRow(FOOT).None?
  {
    assert PREFIXES_HEAD[1] == "</table>"[1] && (PREFIXES_HEAD + rest)[1] == PREFIXES_HEAD[1];
    assert ROW[1] == 't' && FOOT[1] == '/';
    assert !(ROW <= PREFIXES_HEAD + rest) && !(ROW <= FOOT);
  }

  /** No list of rows begins like the placeholder for an empty one. */
  lemma RowsAreNoPlaceholder(rows: seq<Cells>, rest: string)
    requires rows != []
    ensures !(NO_PREFIX <= RowsText(rows) + rest)
  {
    var s := RowsText(rows) + rest;
    assert RowText(rows[0].left, rows[0].right)[1] == 't';
    assert s[1] == 't' && NO_PREFIX[1] == '/';
  }

  /** What a page is meant to show: its number, a row for each request unless the number is zero, and
      a row for each prefix. */
  function Meant(page: Page): Shown {
    Shown(page.number, if page.number == 0 then [] else RequestCells(page.requests), PrefixCells(page.prefixes))
  }

  lemma PlainTextShowsPage(page: Page)
    requires NoTags(Meant(page).requests) && NoTags(Meant(page).prefixes)
    ensures ReadPage(page.Text()) == Some(Meant(page))
  {
    NumberIsShown(page);
    var last := PrefixesPart(page) + FOOT;
    RequestRowsAre(page.requests);
    PrefixRowsAre(page.prefixes);
    NoRowHere(last);
    hide ReadRow, ReadRows, RequestRows, PrefixRows, RowsText, RequestCells, PrefixCells, NoTags, ReadNumber;
    StripFront(NO_REQUEST, PREFIXES_HEAD + last);
    if page.number != 0 {
      ReadTheRows(RequestCells(page.requests), PREFIXES_HEAD + last);
    }
    StripFront(PREFIXES_HEAD, last);
    if page.prefixes == [] {
      assert last[..|NO_PREFIX|] == NO_PREFIX && last[|NO_PREFIX|..] == FOOT;
      assert PrefixCells(page.prefixes) == [] by { NoCells(page.prefixes); }
    } else {
      NoCells(page.prefixes);
      RowsAreNoPlaceholder(PrefixCells(page.prefixes), FOOT);
      ReadTheRows(PrefixCells(page.prefixes), FOOT);
    }
  }

  lemma NoCells(list: seq<Route>)
    ensures PrefixCells(list) == [] <==> list == []
  {
  }

  lemma {:induction false} CellHasNoTag(s: string)
    ensures NoTag(s[..CellLength(s)])
  {
    if s != "" && s[0] != '<' {
      CellHasNoTag(s[1..]);
      assert s[..CellLength(s)] == [s[0]] + s[1..][..CellLength(s[1..])];
    }
  }

  lemma {:induction false} ReadCellsHaveNoTags(s: string)
    ensures NoTags(ReadRows(s).rows)
    decreases |s|
  {
    if ReadRow(s).Some? {
      var row := ReadRow(s).value;
      var t := Strip(ROW, s).value;
      var u := Strip(NEXT, t[CellLength(t)..]).value;
      CellHasNoTag(t);
      CellHasNoTag(u);
      assert NoTag(row.0.left) && NoTag(row.0.right);
      hide ReadRow, NoTag;
      ReadCellsHaveNoTags(row.1);
    }
  }

  /** The text reads back as exactly the page if and only if no URL, prefix or handler name that it
      shows holds a '<'. */
  lemma TextShowsPageIff(page: Page)
    ensures ReadPage(page.Text()) == Some(Meant(page))
            <==> NoTags(Meant(page).requests) && NoTags(Meant(page).prefixes)
  {
    if NoTags(Meant(page).requests) && NoTags(Meant(page).prefixes) {
      PlainTextShowsPage(page);
    }
    hide Meant, ReadRows, NoTags, Strip;
    if ReadPage(page.Text()) == Some(Meant(page)) {
      ShownHasNoTags(page.Text());
    }
  }

  /** So a page whose URLs, prefixes and handler names hold no '<' shows its number and, unless that is
      zero, each request in order with its URL on the left and its code on the right; and each prefix in
      order with its handler on the right. */
  lemma ShownAsRecorded(page: Page)
    requires forall i :: 0 <= i < |page.requests| ==> '<' !in page.requests[i].url
    requires forall i :: 0 <= i < |page.prefixes| ==> '<' !in page.prefixes[i].uri && '<' !in page.prefixes[i].handler
    ensures ReadPage(page.Text()).Some?
    ensures var shown := ReadPage(page.Text()).value;
            && shown.number == page.number
            && |shown.requests| == (if page.number == 0 then 0 else |page.requests|)
            && (forall i :: 0 <= i < |shown.requests| ==>
                  shown.requests[i] == Cells(page.requests[i].url, Decimal(page.requests[i].code)))
            && |shown.prefixes| == |page.prefixes|
            && (forall i :: 0 <= i < |shown.prefixes| ==>
                  shown.prefixes[i] == Cells(page.prefixes[i].uri, page.prefixes[i].handler))
  {
    hide *;
    CellsHaveNoTags(page);
    TextShowsPageIff(page);
    MeantIs(page);
  }

  lemma MeantIs(page: Page)
    ensures var shown := Meant(page);
            && shown.number == page.number
            && |shown.requests| == (if page.number == 0 then 0 else |page.requests|)
            && (forall i :: 0 <= i < |shown.requests| ==>
                  shown.requests[i] == Cells(page.requests[i].url, Decimal(page.requests[i].code)))
            && |shown.prefixes| == |page.prefixes|
            && (forall i :: 0 <= i < |shown.prefixes| ==>
                  shown.prefixes[i] == Cells(page.prefixes[i].uri, page.prefixes[i].handler))
  {
    hide Decimal;
  }

  lemma CellsHaveNoTags(page: Page)
    requires forall i :: 0 <= i < |page.requests| ==> '<' !in page.requests[i].url
    requires forall i :: 0 <= i < |page.prefixes| ==> '<' !in page.prefixes[i].uri && '<' !in page.prefixes[i].handler
    ensures NoTags(Meant(page).requests) && NoTags(Meant(page).prefixes)
  {
    hide Decimal;
    forall i | 0 <= i < |page.requests|
      ensures NoTag(Decimal(page.requests[i].code))
    {
      DecimalHasNoTag(page.requests[i].code);
    }
  }

  lemma DecimalHasNoTag(n: nat)
    ensures NoTag(Decimal(n))
  {
    DecimalRoundTrip(n);
    var s := Decimal(n);
    assert forall i :: 0 <= i < |s| ==> IsDigit(s[i]);
    hide Decimal;
  }

  /** How one more row is written. */
  lemma RowsAsWritten(requests: seq<Request>, url: string, code: nat,
                      prefixes: seq<Route>, uri: string, handler: string)
    ensures RequestRows(requests + [Request(url, code)]) ==
            RequestRows(requests) + ("<tr><td>" + url + "</td><td>" + Decimal(code) + "</td></tr>")
    ensures PrefixRows(prefixes + [Route(uri, handler)]) ==
            PrefixRows(prefixes) + ("<tr><td>" + uri + "</td><td>" + handler + "</td></tr>")
  {
    assert Front(requests + [Request(url, code)]) == requests && Front(prefixes + [Route(uri, handler)]) == prefixes;
    hide Decimal;
  }

  lemma ShownHasNoTags(text: string)
    requires ReadPage(text).Some?
    ensures NoTags(ReadPage(text).value.requests) && NoTags(ReadPage(text).value.prefixes)
  {
    assert NoTags([]);
    hide ReadRows, NoTags, Strip, ReadNumber;
    var head := ReadNumber(text).value;
    ReadCellsHaveNoTags(head.1);
    var requests := if head.0 == 0 then Rows([], StripOr(NO_REQUEST, head.1)) else ReadRows(head.1);
    ReadCellsHaveNoTags(Strip(PREFIXES_HEAD, requests.rest).value);
  }

  /** With a '<' in a URL, which is written as it is, one request can look like two. */
  lemma TagsAreAmbiguous(u: string, m: nat, v: string, n: nat)
    ensures RequestRows([Request(u + NEXT + Decimal(m) + END_ROW + ROW + v, n)])
            == RequestRows([Request(u, m), Request(v, n)])
  {
    var one, two := Request(u + NEXT + Decimal(m) + END_ROW + ROW + v, n), [Request(u, m), Request(v, n)];
    assert Front([one]) == [] && Front(two) == [Request(u, m)] && Front(Front(two)) == [];
    JoinedRows(u, Decimal(m), v, Decimal(n));
    hide RowText, Decimal;
    assert RequestRows([]) == "";
    assert "" + RowText(u, Decimal(m)) == RowText(u, Decimal(m));
    assert RequestRows([Request(u, m)]) == RowText(u, Decimal(m));
    assert RequestRows([one]) == "" + RowText(one.url, Decimal(n));
  }

  lemma JoinedRows(u: string, d: string, v: string, e: string)
    ensures "" + RowText(u + NEXT + d + END_ROW + ROW + v, e) == RowText(u, d) + RowText(v, e)
  {
  }
}
