/** The table of memes, and what each statement that the meme handler issues does to the row with a
    given key. */
module MemeTable {
  import opened Text
  import opened SqlLanguage
  import opened SqlText
  import opened SqlCompile
  import opened SqlManager

  const TABLE := "meme_table"
  const ID := "id"
  const IMAGE := "img_path"
  const TOP := "top_caption"
  const BOTTOM := "bot_caption"
  const VIEWS := "times_viewed"
  const COLUMNS: seq<string> := [ID, IMAGE, TOP, BOTTOM, VIEWS]

  predicate IsMemeTable(t: Table) {
    t.name == TABLE && t.columns == COLUMNS && TableOk(t)
  }

  // ----- the selectors of each statement -----

  function IdIs(id: string): seq<Selector> {
    [Selector(ID, id)]
  }

  function NewMeme(id: string, image: string, top: string, bottom: string): seq<Selector> {
    [Selector(ID, id), Selector(IMAGE, image), Selector(TOP, top), Selector(BOTTOM, bottom), Selector(VIEWS, "0")]
  }

  function Captions(image: string, top: string, bottom: string): seq<Selector> {
    [Selector(IMAGE, image), Selector(TOP, top), Selector(BOTTOM, bottom)]
  }

  function Count(count: string): seq<Selector> {
    [Selector(VIEWS, count)]
  }

  function CaptionsEffect(t: Table, id: string, image: string, top: string, bottom: string): Option<Table>
    requires TableOk(t)
  {
    UpdateEffect(t, TABLE, Captions(image, top, bottom), IdIs(id))
  }

  function CountEffect(t: Table, id: string, count: string): Option<Table>
    requires TableOk(t)
  {
    UpdateEffect(t, TABLE, Count(count), IdIs(id))
  }

  /** Every name in these statements is an SQL identifier. */
  lemma NamesAreIdentifiers(id: string, image: string, top: string, bottom: string, count: string)
    ensures Identifiers(TABLE, IdIs(id)) && Identifiers(TABLE, NewMeme(id, image, top, bottom))
    ensures Identifiers(TABLE, Captions(image, top, bottom)) && Identifiers(TABLE, Count(count))
    ensures Identifiers(TABLE, [])
  {
    TheseAreNames();
    hide IsName;
  }

  lemma TheseAreNames()
    ensures IsName(TABLE) && IsName(ID) && IsName(IMAGE) && IsName(TOP) && IsName(BOTTOM) && IsName(VIEWS)
  {
  }

  lemma ColumnsDiffer()
    ensures forall i, j :: 0 <= i < j < 5 ==> COLUMNS[i] != COLUMNS[j]
  {
    assert TOP[0] != BOTTOM[0];
  }

  // ----- the row with a key -----

  function RowOf(rows: seq<Row>, key: string): (r: Option<Row>)
    ensures r.Some? ==> r.value in rows && r.value != [] && r.value[0] == key
  {
    if rows == [] then None
    else if rows[0] != [] && rows[0][0] == key then Some(rows[0])
    else RowOf(rows[1..], key)
  }

  lemma {:induction false} RowOfIs(rows: seq<Row>, i: nat)
    requires UniqueKeys(rows) && i < |rows|
    ensures RowOf(rows, rows[i][0]) == Some(rows[i])
  {
    if i != 0 {
      UniqueTail(rows);
      RowOfIs(rows[1..], i - 1);
    }
  }

  lemma {:induction false} RowOfNone(rows: seq<Row>, key: string)
    requires forall i :: 0 <= i < |rows| ==> rows[i] != [] && rows[i][0] != key
    ensures RowOf(rows, key) == None
  {
    if rows != [] {
      assert forall i :: 0 <= i < |rows[1..]| ==> rows[1..][i] == rows[i + 1];
      RowOfNone(rows[1..], key);
    }
  }

  lemma {:induction false} RowOfAppend(rows: seq<Row>, row: Row, key: string)
    requires row != []
    ensures RowOf(rows + [row], key) ==
            if RowOf(rows, key).Some? then RowOf(rows, key) else if row[0] == key then Some(row) else None
  {
    if rows == [] {
      assert rows + [row] == [row];
      assert RowOf([row][1..], key) == None;
    } else {
      assert (rows + [row])[1..] == rows[1..] + [row];
      RowOfAppend(rows[1..], row, key);
    }
  }

  lemma {:induction false} RowOfFilter(p: Row -> bool, rows: seq<Row>, key: string)
    requires UniqueKeys(rows)
    ensures RowOf(Filter(p, rows), key) ==
            if RowOf(rows, key).Some? && p(RowOf(rows, key).value) then RowOf(rows, key) else None
  {
    if rows != [] {
      UniqueTail(rows);
      RowOfFilter(p, rows[1..], key);
      var rest := Filter(p, rows[1..]);
      if rows[0][0] == key {
        forall i | 0 <= i < |rows[1..]|
          ensures rows[1..][i] != [] && rows[1..][i][0] != key
        {
          assert rows[1..][i] == rows[i + 1];
        }
        RowOfNone(rows[1..], key);
      }
      if p(rows[0]) {
        assert ([rows[0]] + rest)[1..] == rest;
        assert Filter(p, rows) == [rows[0]] + rest;
      } else {
        assert Filter(p, rows) == rest;
      }
    }
  }

  /** Changing rows in place, keys aside, changes what is found under each key. */
  lemma {:induction false} RowOfMapped(rows: seq<Row>, mapped: seq<Row>, key: string)
    requires |rows| == |mapped|
    requires forall i :: 0 <= i < |rows| ==> rows[i] != [] && mapped[i] != [] && mapped[i][0] == rows[i][0]
    ensures RowOf(rows, key).None? <==> RowOf(mapped, key).None?
    ensures RowOf(rows, key).Some? ==>
              exists i :: 0 <= i < |rows| && rows[i] == RowOf(rows, key).value && mapped[i] == RowOf(mapped, key).value
  {
    if rows != [] {
      if rows[0][0] == key {
        assert rows[0] == RowOf(rows, key).value && mapped[0] == RowOf(mapped, key).value;
      } else {
        assert forall i :: 0 <= i < |rows[1..]| ==> rows[1..][i] == rows[i + 1] && mapped[1..][i] == mapped[i + 1];
        RowOfMapped(rows[1..], mapped[1..], key);
        if RowOf(rows, key).Some? {
          var i :| && 0 <= i < |rows[1..]| && rows[1..][i] == RowOf(rows, key).value
                   && mapped[1..][i] == RowOf(mapped, key).value;
          assert rows[i + 1] == RowOf(rows, key).value && mapped[i + 1] == RowOf(mapped, key).value;
        }
      }
    }
  }

  // ----- what each statement does to the row with a key -----

  function WithCaptions(row: Row, image: string, top: string, bottom: string): Row
    requires |row| == 5
  {
    [row[0], CString(image), CString(top), CString(bottom), row[4]]
  }

  function WithCount(row: Row, count: string): Row
    requires |row| == 5
  {
    [row[0], row[1], row[2], row[3], CString(count)]
  }

  lemma MatchesId(t: Table, row: Row, id: string)
    requires t.columns == COLUMNS && |row| == 5
    ensures Matches(t, row, IdIs(id)) <==> row[0] == CString(id)
  {
    ColumnsDiffer();
    assert IdIs(id)[0].column == t.columns[0];
  }

  lemma AssignedCaptions(t: Table, row: Row, image: string, top: string, bottom: string)
    requires t.columns == COLUMNS && |row| == 5
    ensures Assigned(t, row, Captions(image, top, bottom)) == WithCaptions(row, image, top, bottom)
  {
    ColumnsDiffer();
    var sels := Captions(image, top, bottom);
    assert sels[..2] == [Selector(IMAGE, image), Selector(TOP, top)];
    assert sels[..2][..1] == [Selector(IMAGE, image)];
    assert sels[..2][..1][..0] == [];
    forall j | 0 <= j < 5
      ensures LastGiven(sels, t.columns[j], row[j]) == WithCaptions(row, image, top, bottom)[j]
    {
      LastGivenThree(sels, t.columns[j], row[j]);
    }
  }

  lemma LastGivenThree(sels: seq<Selector>, column: string, before: string)
    requires |sels| == 3
    ensures LastGiven(sels, column, before) ==
            if sels[2].column == column then CString(sels[2].value)
            else if sels[1].column == column then CString(sels[1].value)
            else if sels[0].column == column then CString(sels[0].value)
            else before
  {
    var two := sels[..2];
    var one := two[..1];
    assert one[..0] == [];
    assert LastGiven(one, column, before) == if one[0].column == column then CString(one[0].value) else before;
    assert LastGiven(two, column, before) ==
           if two[1].column == column then CString(two[1].value) else LastGiven(one, column, before);
  }

  lemma AssignedCount(t: Table, row: Row, count: string)
    requires t.columns == COLUMNS && |row| == 5
    ensures Assigned(t, row, Count(count)) == WithCount(row, count)
  {
    ColumnsDiffer();
    var sels := Count(count);
    assert sels[..0] == [];
    forall j | 0 <= j < 5
      ensures LastGiven(sels, t.columns[j], row[j]) == WithCount(row, count)[j]
    {
      assert LastGiven(sels[..0], t.columns[j], row[j]) == row[j];
    }
  }

  /** What an update by key does when it changes each matching row by a function that keeps its key. */
  lemma UpdateById(t: Table, sets: seq<Selector>, id: string, key: string)
    requires IsMemeTable(t) && sets != [] && Known(t, sets)
    requires forall i :: 0 <= i < |t.rows| ==> |t.rows[i]| == 5 && Assigned(t, t.rows[i], sets)[0] == t.rows[i][0]
    ensures var u := UpdateEffect(t, TABLE, sets, IdIs(id));
            && u.Some? && IsMemeTable(u.value)
            && (RowOf(u.value.rows, key).Some? <==> RowOf(t.rows, key).Some?)
            && (RowOf(t.rows, key).Some? ==>
                  var row := RowOf(t.rows, key).value;
                  && |row| == 5
                  && RowOf(u.value.rows, key) == Some(if key == CString(id) then Assigned(t, row, sets) else row))
  {
    var rows := UpdatedRows(t, sets, IdIs(id));
    forall i | 0 <= i < |t.rows|
      ensures rows[i] == if t.rows[i][0] == CString(id) then Assigned(t, t.rows[i], sets) else t.rows[i]
      ensures |rows[i]| == 5 && rows[i][0] == t.rows[i][0]
    {
      hide Matches, Assigned;
      MatchesId(t, t.rows[i], id);
    }
    hide Matches, Assigned, UpdatedRows;
    IdIsKnown(t, id);
    RowOfMapped(t.rows, rows, key);
  }

  lemma IdIsKnown(t: Table, id: string)
    requires t.columns == COLUMNS
    ensures Known(t, IdIs(id))
  {
    assert t.columns[0] == ID;
  }

  function CaptionsOn(r: Option<Row>, image: string, top: string, bottom: string): Option<Row> {
    if r.Some? && |r.value| == 5 then Some(WithCaptions(r.value, image, top, bottom)) else r
  }

  function CountOn(r: Option<Row>, count: string): Option<Row> {
    if r.Some? && |r.value| == 5 then Some(WithCount(r.value, count)) else r
  }

  /** Updating captions by key always succeeds, and changes the three caption fields of the row with
      that key and nothing else. */
  lemma CaptionsById(t: Table, id: string, image: string, top: string, bottom: string, key: string)
    requires IsMemeTable(t)
    ensures var u := CaptionsEffect(t, id, image, top, bottom);
            && u.Some? && IsMemeTable(u.value)
            && RowOf(u.value.rows, key) ==
               (if key == CString(id) then CaptionsOn(RowOf(t.rows, key), image, top, bottom) else RowOf(t.rows, key))
  {
    hide Assigned, UpdateEffect;
    var sets := Captions(image, top, bottom);
    forall i | 0 <= i < |t.rows|
      ensures |t.rows[i]| == 5 && Assigned(t, t.rows[i], sets)[0] == t.rows[i][0]
    {
      AssignedCaptions(t, t.rows[i], image, top, bottom);
    }
    assert Known(t, sets) by { assert t.columns[1] == IMAGE && t.columns[2] == TOP && t.columns[3] == BOTTOM; }
    UpdateById(t, sets, id, key);
    if RowOf(t.rows, key).Some? {
      AssignedCaptions(t, RowOf(t.rows, key).value, image, top, bottom);
    }
  }

  /** Updating the count by key always succeeds, and changes the count of the row with that key and
      nothing else. */
  lemma CountById(t: Table, id: string, count: string, key: string)
    requires IsMemeTable(t)
    ensures var u := CountEffect(t, id, count);
            && u.Some? && IsMemeTable(u.value)
            && RowOf(u.value.rows, key) ==
               (if key == CString(id) then CountOn(RowOf(t.rows, key), count) else RowOf(t.rows, key))
  {
    hide Assigned, UpdateEffect;
    var sets := Count(count);
    forall i | 0 <= i < |t.rows|
      ensures |t.rows[i]| == 5 && Assigned(t, t.rows[i], sets)[0] == t.rows[i][0]
    {
      AssignedCount(t, t.rows[i], count);
    }
    assert Known(t, sets) by { assert t.columns[4] == VIEWS; }
    UpdateById(t, sets, id, key);
    if RowOf(t.rows, key).Some? {
      AssignedCount(t, RowOf(t.rows, key).value, count);
    }
  }

  function MemeRow(id: string, image: string, top: string, bottom: string): Row {
    [CString(id), CString(image), CString(top), CString(bottom), "0"]
  }

  lemma GivenMeme(t: Table, id: string, image: string, top: string, bottom: string)
    requires t.columns == COLUMNS
    ensures var sels := NewMeme(id, image, top, bottom);
            GivesEveryColumn(t, sels) && GivenRow(t, sels) == MemeRow(id, image, top, bottom)
  {
    ColumnsDiffer();
    var sels := NewMeme(id, image, top, bottom);
    assert ColumnsOf(sels) == COLUMNS;
    forall i | 0 <= i < 5
      ensures sels[i].column in t.columns && t.columns[i] in ColumnsOf(sels)
    {
      assert t.columns[i] == sels[i].column;
    }
    forall i | 0 <= i < 5
      ensures ColumnIndex(COLUMNS, COLUMNS[i]) == i
    {
    }
    assert CString("0") == "0" by { CStringIs("0"); }
    assert GivenRow(t, sels) == MemeRow(id, image, top, bottom);
  }

  /** Inserting a meme succeeds exactly when its key is new, and adds that row and no other. */
  lemma InsertById(t: Table, id: string, image: string, top: string, bottom: string, key: string)
    requires IsMemeTable(t)
    ensures var u := InsertEffect(t, TABLE, NewMeme(id, image, top, bottom));
            && (u.Some? <==> RowOf(t.rows, CString(id)).None?)
            && (u.Some? ==>
                  && IsMemeTable(u.value)
                  && RowOf(u.value.rows, key) ==
                     if key == CString(id) then Some(MemeRow(id, image, top, bottom)) else RowOf(t.rows, key))
  {
    hide NewMeme, GivenRow, GivesEveryColumn;
    GivenMeme(t, id, image, top, bottom);
    var row := MemeRow(id, image, top, bottom);
    if RowOf(t.rows, CString(id)).Some? {
      assert RowOf(t.rows, CString(id)).value in t.rows;
    } else {
      forall i | 0 <= i < |t.rows|
        ensures t.rows[i][0] != row[0]
      {
        RowOfIs(t.rows, i);
      }
      UniqueSnoc(t.rows, row);
      RowOfAppend(t.rows, row, key);
    }
  }

  /** Deleting by key always succeeds, and removes the row with that key and no other. */
  lemma DeleteById(t: Table, id: string, key: string)
    requires IsMemeTable(t)
    ensures var u := DeleteEffect(t, TABLE, IdIs(id));
            && u.Some? && IsMemeTable(u.value)
            && RowOf(u.value.rows, key) == if key == CString(id) then None else RowOf(t.rows, key)
  {
    hide Matches;
    IdIsKnown(t, id);
    var p := (r: Row) => !Wanted(t, IdIs(id), r);
    FilterKeeps(p, t.rows, 5);
    RowOfFilter(p, t.rows, key);
    var found := RowOf(t.rows, key);
    if found.Some? {
      MatchesId(t, found.value, id);
    }
  }

  lemma {:induction false} FilterOne(p: Row -> bool, rows: seq<Row>, key: string)
    requires UniqueKeys(rows)
    requires forall i :: 0 <= i < |rows| ==> (p(rows[i]) <==> rows[i][0] == key)
    ensures Filter(p, rows) == if RowOf(rows, key).Some? then [RowOf(rows, key).value] else []
  {
    if rows != [] {
      UniqueTail(rows);
      assert forall i :: 0 <= i < |rows[1..]| ==> rows[1..][i] == rows[i + 1];
      FilterOne(p, rows[1..], key);
      if rows[0][0] == key {
        RowOfNone(rows[1..], key);
      }
    }
  }

  /** Selecting by key yields the row with that key, if there is one, and no other. */
  lemma SelectById(t: Table, id: string)
    requires IsMemeTable(t)
    ensures SelectEffect(t, TABLE, IdIs(id)) ==
            Some(if RowOf(t.rows, CString(id)).Some? then [RowOf(t.rows, CString(id)).value] else [])
  {
    hide Matches;
    IdIsKnown(t, id);
    var p := (r: Row) => Wanted(t, IdIs(id), r);
    forall i | 0 <= i < |t.rows|
      ensures p(t.rows[i]) <==> t.rows[i][0] == CString(id)
    {
      MatchesId(t, t.rows[i], id);
    }
    FilterOne(p, t.rows, CString(id));
  }

  // ----- statements about a missing row -----

  /** A caption update changes nothing when no row has the key. */
  lemma CaptionsOfMissing(t: Table, id: string, image: string, top: string, bottom: string)
    requires IsMemeTable(t) && RowOf(t.rows, CString(id)).None?
    ensures CaptionsEffect(t, id, image, top, bottom) == Some(t)
  {
    var sets := Captions(image, top, bottom);
    CaptionsById(t, id, image, top, bottom, "");
    forall i | 0 <= i < |t.rows|
      ensures Updated(t, t.rows[i], sets, IdIs(id)) == t.rows[i]
    {
      RowOfIs(t.rows, i);
      MatchesId(t, t.rows[i], id);
      hide Matches, Assigned;
    }
    hide Updated, Known, UniqueKeys;
    assert UpdatedRows(t, sets, IdIs(id)) == t.rows;
  }

  lemma {:induction false} FilterAll(p: Row -> bool, rows: seq<Row>)
    requires forall i :: 0 <= i < |rows| ==> p(rows[i])
    ensures Filter(p, rows) == rows
  {
    if rows != [] {
      assert forall i :: 0 <= i < |rows[1..]| ==> rows[1..][i] == rows[i + 1];
      FilterAll(p, rows[1..]);
    }
  }

  /** A deletion changes the table if and only if some row has the key. */
  lemma DeleteChangesIff(t: Table, id: string)
    requires IsMemeTable(t)
    ensures DeleteEffect(t, TABLE, IdIs(id)) == Some(t) <==> RowOf(t.rows, CString(id)).None?
  {
    DeleteById(t, id, CString(id));
    if RowOf(t.rows, CString(id)).None? {
      hide Matches;
      IdIsKnown(t, id);
      var p := (r: Row) => !Wanted(t, IdIs(id), r);
      forall i | 0 <= i < |t.rows|
        ensures p(t.rows[i])
      {
        RowOfIs(t.rows, i);
        MatchesId(t, t.rows[i], id);
      }
      FilterAll(p, t.rows);
    }
  }

  // ----- the order of keys -----

  function Key(row: Row): string {
    if row == [] then "" else row[0]
  }

  function KeysOf(rows: seq<Row>): (r: seq<string>)
    ensures |r| == |rows|
  {
    seq(|rows|, i requires 0 <= i < |rows| => Key(rows[i]))
  }

  lemma UpdateKeepsKeys(t: Table, sets: seq<Selector>, id: string)
    requires IsMemeTable(t)
    requires forall i :: 0 <= i < |t.rows| ==> |t.rows[i]| == 5 && Assigned(t, t.rows[i], sets)[0] == t.rows[i][0]
    ensures UpdateEffect(t, TABLE, sets, IdIs(id)).Some? ==>
              KeysOf(UpdateEffect(t, TABLE, sets, IdIs(id)).value.rows) == KeysOf(t.rows)
  {
    var rows := UpdatedRows(t, sets, IdIs(id));
    forall i | 0 <= i < |t.rows|
      ensures Key(rows[i]) == Key(t.rows[i])
    {
      hide Matches, Assigned;
    }
    assert KeysOf(rows) == KeysOf(t.rows);
  }

  lemma CaptionsKeepKeys(t: Table, id: string, image: string, top: string, bottom: string)
    requires IsMemeTable(t)
    ensures CaptionsEffect(t, id, image, top, bottom).Some? ==>
              KeysOf(CaptionsEffect(t, id, image, top, bottom).value.rows) == KeysOf(t.rows)
  {
    hide Assigned, UpdateEffect, KeysOf;
    var sets := Captions(image, top, bottom);
    forall i | 0 <= i < |t.rows|
      ensures |t.rows[i]| == 5 && Assigned(t, t.rows[i], sets)[0] == t.rows[i][0]
    {
      AssignedCaptions(t, t.rows[i], image, top, bottom);
    }
    UpdateKeepsKeys(t, sets, id);
  }

  lemma CountKeepsKeys(t: Table, id: string, count: string)
    requires IsMemeTable(t)
    ensures CountEffect(t, id, count).Some? ==> KeysOf(CountEffect(t, id, count).value.rows) == KeysOf(t.rows)
  {
    hide Assigned, UpdateEffect, KeysOf;
    var sets := Count(count);
    forall i | 0 <= i < |t.rows|
      ensures |t.rows[i]| == 5 && Assigned(t, t.rows[i], sets)[0] == t.rows[i][0]
    {
      AssignedCount(t, t.rows[i], count);
    }
    UpdateKeepsKeys(t, sets, id);
  }

  lemma InsertAppendsKey(t: Table, id: string, image: string, top: string, bottom: string)
    requires IsMemeTable(t)
    ensures var u := InsertEffect(t, TABLE, NewMeme(id, image, top, bottom));
            u.Some? ==> KeysOf(u.value.rows) == KeysOf(t.rows) + [CString(id)]
  {
    hide NewMeme, GivenRow, GivesEveryColumn;
    GivenMeme(t, id, image, top, bottom);
    var rows := t.rows + [MemeRow(id, image, top, bottom)];
    assert KeysOf(rows) == KeysOf(t.rows) + [CString(id)];
  }

  lemma {:induction false} FilterDropsKey(p: Row -> bool, rows: seq<Row>, key: string)
    requires forall i :: 0 <= i < |rows| ==> rows[i] != [] && (p(rows[i]) <==> rows[i][0] != key)
    ensures KeysOf(Filter(p, rows)) == Without(KeysOf(rows), key)
  {
    if rows != [] {
      assert forall i :: 0 <= i < |rows[1..]| ==> rows[1..][i] == rows[i + 1];
      FilterDropsKey(p, rows[1..], key);
      assert KeysOf(rows)[1..] == KeysOf(rows[1..]);
      var rest := Filter(p, rows[1..]);
      assert KeysOf([rows[0]] + rest) == [Key(rows[0])] + KeysOf(rest);
      assert [] + rest == rest && [] + KeysOf(rest) == KeysOf(rest);
    }
  }

  lemma DeleteDropsKey(t: Table, id: string)
    requires IsMemeTable(t)
    ensures var u := DeleteEffect(t, TABLE, IdIs(id));
            u.Some? ==> KeysOf(u.value.rows) == Without(KeysOf(t.rows), CString(id))
  {
    hide Matches, KeysOf;
    IdIsKnown(t, id);
    var p := (r: Row) => !Wanted(t, IdIs(id), r);
    forall i | 0 <= i < |t.rows|
      ensures t.rows[i] != [] && (p(t.rows[i]) <==> t.rows[i][0] != CString(id))
    {
      MatchesId(t, t.rows[i], id);
    }
    FilterDropsKey(p, t.rows, CString(id));
  }

  /** A meme that is inserted into the table `meme_table` has its id, template, captions and a zero in the
      columns of those names. */
  lemma InsertedByName(t: Table, id: string, image: string, top: string, bottom: string)
    requires t.name == "meme_table" && TableOk(t)
    requires t.columns == ["id", "img_path", "top_caption", "bot_caption", "times_viewed"]
    requires RowOf(t.rows, CString(id)).None?
    ensures var u := InsertEffect(t, TABLE, NewMeme(id, image, top, bottom));
            && u.Some?
            && RowOf(u.value.rows, CString(id)) ==
               Some([CString(id), CString(image), CString(top), CString(bottom), "0"])
  {
    ZeroIsPlain();
    hide InsertEffect, RowOf, TableOk, CString, NewMeme;
    InsertById(t, id, image, top, bottom, CString(id));
  }

  lemma ZeroIsPlain()
    ensures CString("0") == "0"
  {
    CStringIs("0");
  }
}
