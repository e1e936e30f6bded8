/** The list of memes that the server sends: rows sorted by view count and read backwards, written
    as a JSON array of strings whose fields are separated by colons, and read back by the client. */
module MemeListing {
  import opened Text
  import opened SqlLanguage
  import opened StableSort
  import opened JsonStrings
  import opened UriCodec
  import opened FormBody
  import opened MemeHistory
  import opened MemeStore

  predicate Fives(rows: seq<Row>) {
    forall i :: 0 <= i < |rows| ==> |rows[i]| == 5
  }

  /** The view count by which rows are compared. */
  function Views(row: Row): int {
    if |row| == 5 && Stoi(row[4]).Some? then Stoi(row[4]).value else 0
  }

  predicate Countable(rows: seq<Row>) {
    forall i :: 0 <= i < |rows| ==> |rows[i]| == 5 && Stoi(rows[i][4]).Some?
  }

  /** `std::stable_sort` by view count. Fewer than two rows are not compared at all; otherwise every
      row is, and a count that is no number makes the comparison throw. */
  function Sorted(rows: seq<Row>): Option<seq<Row>> {
    if |rows| < 2 then Some(rows)
    else if Countable(rows) then Some(Sort(rows, Views))
    else None
  }

  /** `id:times:image:top:bottom` */
  function Entry(row: Row): string
    requires |row| == 5
  {
    row[0] + ([':'] + (row[4] + ([':'] + (row[1] + ([':'] + (row[2] + ([':'] + row[3])))))))
  }

  function Entries(rows: seq<Row>): seq<string>
    requires Fives(rows)
  {
    seq(|rows|, i requires 0 <= i < |rows| => Entry(rows[i]))
  }

  /** The rows in the order in which they are listed. */
  function Listed(rows: seq<Row>): Option<seq<Row>> {
    match Sorted(rows)
    case None => None
    case Some(sorted) => Some(Reverse(sorted))
  }

  lemma SortedFives(rows: seq<Row>)
    requires Fives(rows) && Sorted(rows).Some?
    ensures Fives(Sorted(rows).value) && Fives(Listed(rows).value)
  {
    var sorted := Sorted(rows).value;
    SortIsStable(rows, Views, 0);
    forall i | 0 <= i < |sorted|
      ensures |sorted[i]| == 5
    {
      assert sorted[i] in multiset(sorted);
      assert sorted[i] in rows;
    }
    forall i | 0 <= i < |sorted|
      ensures |Reverse(sorted)[i]| == 5
    {
      ReverseAt(sorted, i);
    }
  }

  lemma EntryText(row: Row)
    requires |row| == 5
    ensures "\"" + row[0] + ":" + row[4] + ":" + row[1] + ":" + row[2] + ":" + row[3] + "\"" == Quoted(Entry(row))
  {
  }

  /** Sorts the rows and writes them out from the last to the first, a comma before each but the
      first. None when a comparison throws. */
  method MemeList(result: seq<Row>) returns (r: Option<string>)
    requires Fives(result)
    ensures Listed(result).None? ==> r == None
    ensures Listed(result).Some? ==>
              Fives(Listed(result).value) && r == Some(ArrayText(Entries(Listed(result).value)))
  {
    var sorting := Sorted(result);
    if sorting.None? { return None; }
    var sorted := sorting.value;
    SortedFives(result);
    hide Entry, Sorted, Quoted, Commas, Reverse;
    ghost var entries := Entries(Reverse(sorted));
    var output := "[";
    var addComma := false;
    assert entries[..0] == [];
    NoCommas();
    for i := 0 to |sorted|
      invariant addComma <==> i != 0
      invariant output == "[" + Commas(entries[..i])
    {
      if addComma { output := output + ","; }
      addComma := true;
      var row := sorted[|sorted| - 1 - i];
      ReverseAt(sorted, i);
      EntryText(row);
      assert entries[..i + 1] == entries[..i] + [entries[i]];
      NextEntry(entries[..i], entries[i]);
      output := output + ("\"" + row[0] + ":" + row[4] + ":" + row[1] + ":" + row[2] + ":" + row[3] + "\"");
    }
    assert entries[..|sorted|] == entries;
    output := output + "]";
    return Some(output);
  }

  lemma NoCommas()
    ensures "[" + Commas([]) == "["
  {
  }

  lemma NextEntry(entries: seq<string>, entry: string)
    ensures "[" + Commas(entries + [entry]) ==
            (if entries != [] then "[" + Commas(entries) + "," else "[" + Commas(entries)) + Quoted(entry)
  {
    if entries == [] {
      assert entries + [entry] == [entry];
    } else {
      hide Commas, Quoted;
      CommasSnoc(entries, entry);
    }
  }

  // ----- the order of the list -----

  lemma FewerThanTwo(rows: seq<Row>)
    requires |rows| < 2
    ensures Sort(rows, Views) == rows
  {
    if rows != [] {
      assert rows == [rows[0]];
    }
  }

  /** The list is a permutation of the rows, by view count from the highest to the lowest; rows with
      the same count come in the reverse of the order in which they were selected. */
  lemma ListingOrder(rows: seq<Row>, count: int)
    requires Listed(rows).Some?
    ensures var listed := Listed(rows).value;
            && multiset(listed) == multiset(rows)
            && Descending(listed, Views)
            && WithKey(listed, Views, count) == Reverse(WithKey(rows, Views, count))
  {
    if |rows| < 2 {
      FewerThanTwo(rows);
    }
    hide *;
    SortedIsSort(rows);
    var sorted := Sort(rows, Views);
    SortIsStable(rows, Views, count);
    ReverseDescends(sorted, Views);
    ReverseWithKey(sorted, Views, count);
  }

  lemma SortedIsSort(rows: seq<Row>)
    requires Listed(rows).Some?
    ensures Listed(rows) == Some(Reverse(Sort(rows, Views)))
  {
    if |rows| < 2 {
      FewerThanTwo(rows);
    }
  }

  // ----- reading the list back -----

  /** A field that neither the JSON nor the colons can disturb. */
  predicate PlainField(s: string) {
    NeedsNoEscape(s) && ':' !in s
  }

  predicate PlainRow(row: Row) {
    |row| == 5 && forall i :: 0 <= i < 5 ==> PlainField(row[i])
  }

  predicate PlainRows(rows: seq<Row>) {
    forall i :: 0 <= i < |rows| ==> PlainRow(rows[i])
  }

  lemma EntryNeedsNoEscape(row: Row)
    requires PlainRow(row)
    ensures NeedsNoEscape(Entry(row))
  {
    assert PlainField(row[0]) && PlainField(row[1]) && PlainField(row[2]) && PlainField(row[3]) && PlainField(row[4]);
    hide PlainField;
    JoinNeedsNoEscape(row[2], row[3]);
    JoinNeedsNoEscape(row[1], row[2] + ([':'] + row[3]));
    JoinNeedsNoEscape(row[4], row[1] + ([':'] + (row[2] + ([':'] + row[3]))));
    JoinNeedsNoEscape(row[0], row[4] + ([':'] + (row[1] + ([':'] + (row[2] + ([':'] + row[3]))))));
  }

  lemma JoinNeedsNoEscape(a: string, b: string)
    requires PlainField(a) && (NeedsNoEscape(b) || PlainField(b))
    ensures NeedsNoEscape(a + ([':'] + b))
  {
  }

  /** The client's split on colons recovers the five fields. */
  lemma EntrySplits(row: Row)
    requires PlainRow(row)
    ensures SplitOn(Entry(row), ':') == [row[0], row[4], row[1], row[2], row[3]]
  {
    assert PlainField(row[0]) && PlainField(row[1]) && PlainField(row[2]) && PlainField(row[3]) && PlainField(row[4]);
    hide SplitOn, NeedsNoEscape, PlainRow;
    var three := row[2] + ([':'] + row[3]);
    var two := row[1] + ([':'] + three);
    var one := row[4] + ([':'] + two);
    SplitLast(row[3], ':');
    SplitFirst(row[2], ':', row[3]);
    SplitFirst(row[1], ':', three);
    SplitFirst(row[4], ':', two);
    SplitFirst(row[0], ':', one);
  }

  /** A list of plain rows is a JSON array of strings, one for each row in order, and splitting each
      of them gives its row's fields. */
  lemma ListingReadsBack(rows: seq<Row>)
    requires PlainRows(rows) && Fives(rows)
    ensures ReadArray(ArrayText(Entries(rows))) == Some(Entries(rows))
    ensures forall i :: 0 <= i < |rows| ==>
              SplitOn(Entries(rows)[i], ':') == [rows[i][0], rows[i][4], rows[i][1], rows[i][2], rows[i][3]]
  {
    hide Entry, ReadArray, ArrayText, NeedsNoEscape, SplitOn;
    forall i | 0 <= i < |rows|
      ensures NeedsNoEscape(Entries(rows)[i])
      ensures SplitOn(Entries(rows)[i], ':') == [rows[i][0], rows[i][4], rows[i][1], rows[i][2], rows[i][3]]
    {
      EntryNeedsNoEscape(rows[i]);
      EntrySplits(rows[i]);
    }
    ReadArrayText(Entries(rows));
  }

  lemma ValueCharsArePlain(s: Bytes)
    requires AreValueChars(s)
    ensures PlainField(s)
  {
  }

  lemma CountIsPlainField(n: Int32)
    ensures PlainField(IntText(n))
  {
    var v: int := n;
    var digits := Decimal(if v < 0 then -v else v);
    DecimalRoundTrip(if v < 0 then -v else v);
    assert forall i :: 0 <= i < |digits| ==> IsDigit(digits[i]);
    hide Decimal;
  }

  lemma IdIsPlainField(s: string)
    requires GeneratedId(s)
    ensures PlainField(s)
  {
    forall i | 0 <= i < |s|
      ensures s[i] >= ' ' && s[i] != '"' && s[i] != '\\' && s[i] != ':'
    {
    }
  }

  lemma MemeRowIsPlain(row: Row)
    requires IsMemeRow(row)
    ensures PlainRow(row) && Stoi(row[4]).Some?
  {
    MemeRowIsReadable(row);
    var key: string, m: Meme, n: Int32 :| IsRowFor(row, key, m, n);
    PresentableArePlain(m.image, m.top, m.bottom);
    CountIsPlainField(n);
    IdIsPlainField(key);
    hide PlainField, PlainRow, Presentable, GeneratedId, IntText, Stoi;
    MadeOfPlain(row, key, m.image, m.top, m.bottom, IntText(n));
  }

  lemma PresentableArePlain(image: Bytes, top: Bytes, bottom: Bytes)
    requires Presentable(image, top, bottom)
    ensures PlainField(image) && PlainField(top) && PlainField(bottom)
  {
    ValueCharsArePlain(image);
    ValueCharsArePlain(top);
    ValueCharsArePlain(bottom);
  }

  lemma MadeOfPlain(row: Row, a: string, b: string, c: string, d: string, e: string)
    requires row == [a, b, c, d, e]
    requires PlainField(a) && PlainField(b) && PlainField(c) && PlainField(d) && PlainField(e)
    ensures PlainRow(row)
  {
  }

  lemma {:induction false} FilterOf(keep: Row -> bool, rows: seq<Row>, row: Row)
    requires row in Filter(keep, rows)
    ensures row in rows
  {
    if row !in Filter(keep, rows[1..]) {
      assert row == rows[0];
    } else {
      FilterOf(keep, rows[1..], row);
    }
  }

  /** At any moment of any run, listing the stored memes that some query keeps neither throws nor
      sends a text that the client misreads: it reads a JSON array with one string per meme and splits
      each into that meme's five fields. */
  lemma ListingOfStoredMemes(log: seq<Action>, keep: Row -> bool)
    requires Possible(log)
    ensures var rows := Filter(keep, Rows(log));
            && Listed(rows).Some?
            && var listed := Listed(rows).value;
               && Fives(listed)
               && ReadArray(ArrayText(Entries(listed))) == Some(Entries(listed))
               && (forall i :: 0 <= i < |listed| ==>
                    SplitOn(Entries(listed)[i], ':')
                    == [listed[i][0], listed[i][4], listed[i][1], listed[i][2], listed[i][3]])
  {
    hide Rows, Possible, Filter, Entries, ReadArray, ArrayText, SplitOn, PlainField, Stoi, IsMemeRow;
    var rows := Filter(keep, Rows(log));
    forall i | 0 <= i < |rows|
      ensures PlainRow(rows[i]) && Stoi(rows[i][4]).Some?
    {
      FilterOf(keep, Rows(log), rows[i]);
      EveryRowIsAMeme(log, rows[i]);
      MemeRowIsPlain(rows[i]);
    }
    SortedFives(rows);
    ListedAreRows(rows);
    var listed := Listed(rows).value;
    forall i | 0 <= i < |listed|
      ensures PlainRow(listed[i])
    {
      assert listed[i] in rows;
    }
    hide PlainRow;
    ListingReadsBack(listed);
  }

  lemma ListedAreRows(rows: seq<Row>)
    requires Listed(rows).Some?
    ensures forall i :: 0 <= i < |Listed(rows).value| ==> Listed(rows).value[i] in rows
  {
    hide Listed;
    ListingOrder(rows, 0);
    var listed := Listed(rows).value;
    forall i | 0 <= i < |listed|
      ensures listed[i] in rows
    {
      assert listed[i] in multiset(listed);
    }
  }

  /** The list a client gets, at any moment of any run, of the stored memes that some query keeps:
      exactly those memes, by views from the highest to the lowest, and among memes with equally many
      views the newest first. */
  lemma NewestFirstAmongEquals(log: seq<Action>, keep: Row -> bool, count: int)
    requires Possible(log)
    ensures |Rows(log)| == |Keys(log)|
    ensures forall i :: 0 <= i < |Keys(log)| ==> Expected(log, Keys(log)[i]) == Some(Rows(log)[i])
    ensures var rows := Filter(keep, Rows(log));
            && Listed(rows).Some?
            && multiset(Listed(rows).value) == multiset(rows)
            && Descending(Listed(rows).value, Views)
            && WithKey(Listed(rows).value, Views, count) == Reverse(WithKey(rows, Views, count))
  {
    hide *;
    RowsInOrderOfCreation(log);
    ListingOfStoredMemes(log, keep);
    ListingOrder(Filter(keep, Rows(log)), count);
  }
}
