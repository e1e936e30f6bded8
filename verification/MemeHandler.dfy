/** The meme handler's operations on its database. */
module MemeHandler {
  import opened Text
  import opened UriCodec
  import opened FormBody
  import opened SqlLanguage
  import opened SqlText
  import opened SqlManager
  import opened JsonStrings
  import opened MemeTable
  import opened MemeHistory
  import opened MemeStore
  import opened MemeListing

  datatype Response = Response(status: int, body: string)

  /** A store with no view under way. */
  function Store(t: Table): State {
    State(t, map[], {})
  }

  function IdObject(id: string): string {
    "{\"id\": \"" + id + "\"}"
  }

  function MemeObject(row: Row): string
    requires |row| == 5
  {
    "{" + ("\"memeSelect\": \"" + row[1] + "\", ") + ("\"topCaption\": \"" + row[2] + "\", ")
    + ("\"bottomCaption\": \"" + row[3] + "\"") + "}"
  }

  lemma AcceptedIsPlausible(body: Bytes, ext: Extraction)
    ensures Plausible(CheckBody(body, ext))
  {
    if CheckBody(body, ext).Accepted? {
      AcceptedValues(body, ext);
    }
  }

  /** Selecting without conditions yields every row. */
  lemma SelectAll(t: Table)
    requires IsMemeTable(t)
    ensures SelectEffect(t, TABLE, []) == Some(t.rows)
  {
    var p := (r: Row) => Wanted(t, [], r);
    FilterAll(p, t.rows);
  }

  class MemeHandler {
    const sql_manager_: SqlManager

    constructor (sqlManager: SqlManager)
      ensures sql_manager_ == sqlManager
    {
      sql_manager_ := sqlManager;
    }

    /** Creates a meme under a newly generated id. None stands for an exception while decoding. */
    method CreateMeme(body: Bytes, ext: Extraction, newId: string, completes: bool) returns (r: Option<Response>)
      requires IsMemeTable(sql_manager_.db) && GeneratedId(newId)
      modifies sql_manager_
      ensures Enabled(Store(old(sql_manager_.db)), Action.Create(CheckBody(body, ext), newId, completes))
      ensures sql_manager_.db ==
              Step(Store(old(sql_manager_.db)), Action.Create(CheckBody(body, ext), newId, completes)).table
      ensures r.None? <==> CheckBody(body, ext).Threw?
      ensures r.Some? ==>
                && (r.value.status == 400 <==> CheckBody(body, ext).Refused?)
                && (r.value.status == 201 <==> sql_manager_.db != old(sql_manager_.db))
                && (r.value.status == 201 ==> r.value.body == IdObject(newId))
                && (r.value.status == 400 ==> r.value.body == "The provided meme creation request is invalid!\n")
                && (r.value.status == 500 ==>
                      r.value.body == "An error occurred while trying to create the provided meme!\n")
                && r.value.status in {201, 400, 500}
    {
      AcceptedIsPlausible(body, ext);
      var params := BodyCheck(body, ext);
      hide *;
      assert Plausible(params);
      CreateStep(sql_manager_.db, params, newId, completes);
      if params.Threw? { return None; }
      if params.Refused? {
        return Some(Response(400, "The provided meme creation request is invalid!\n"));
      }
      PlausibleHasThree(params);
      var p := params.params;
      NamesAreIdentifiers(newId, p[0], p[1], p[2], "");
      TableIsOk(sql_manager_.db);
      var created := sql_manager_.InsertRecord(TABLE, NewMeme(newId, p[0], p[1], p[2]), completes);
      InsertChanges(old(sql_manager_.db), NewMeme(newId, p[0], p[1], p[2]));
      BecameIs(old(sql_manager_.db), sql_manager_.db, created,
               InsertEffect(old(sql_manager_.db), TABLE, NewMeme(newId, p[0], p[1], p[2])), completes);
      if created {
        return Some(Response(201, IdObject(newId)));
      } else {
        return Some(Response(500, "An error occurred while trying to create the provided meme!\n"));
      }
    }

    /** Changes the captions under an id. A well-formed request is answered with success whenever the
        statement completes, whether or not a meme has that id. */
    method UpdateMeme(body: Bytes, ext: Extraction, id: string, completes: bool) returns (r: Option<Response>)
      requires IsMemeTable(sql_manager_.db)
      modifies sql_manager_
      ensures Enabled(Store(old(sql_manager_.db)), Action.Update(CheckBody(body, ext), id, completes))
      ensures sql_manager_.db ==
              Step(Store(old(sql_manager_.db)), Action.Update(CheckBody(body, ext), id, completes)).table
      ensures r.None? <==> CheckBody(body, ext).Threw?
      ensures r.Some? ==>
                && (r.value.status == 400 <==> CheckBody(body, ext).Refused? || !CheckId(id))
                && (r.value.status == 500 ==> !completes)
                && (r.value.status == 200 ==> completes && r.value.body == IdObject(id))
                && (r.value.status == 400 ==> r.value.body == "The provided meme update request is invalid!\n")
                && (r.value.status == 500 ==>
                      r.value.body == "An error occurred while trying to update the provided meme!\n")
                && r.value.status in {200, 400, 500}
      ensures r.Some? && r.value.status == 200 ==>
                var before, after := RowOf(old(sql_manager_.db).rows, id), RowOf(sql_manager_.db.rows, id);
                && (after.Some? <==> before.Some?)
                && (before.None? ==> sql_manager_.db == old(sql_manager_.db))
                && (before.Some? ==>
                      var p := CheckBody(body, ext).params;
                      |p| == 3 && after == CaptionsOn(before, p[0], p[1], p[2]))
    {
      AcceptedIsPlausible(body, ext);
      var params := BodyCheck(body, ext);
      hide *;
      assert Plausible(params);
      UpdateStep(sql_manager_.db, params, id, completes);
      if params.Threw? { return None; }
      if params.Refused? || !CheckId(id) {
        return Some(Response(400, "The provided meme update request is invalid!\n"));
      }
      PlausibleHasThree(params);
      var p := params.params;
      NamesAreIdentifiers(id, p[0], p[1], p[2], "");
      TableIsOk(sql_manager_.db);
      IdIsPlain(id);
      CaptionsById(sql_manager_.db, id, p[0], p[1], p[2], id);
      NoneStaysNone(p[0], p[1], p[2]);
      if RowOf(sql_manager_.db.rows, id).None? { CaptionsOfMissing(sql_manager_.db, id, p[0], p[1], p[2]); }
      CaptionsEffectIs(sql_manager_.db, id, p[0], p[1], p[2]);
      var updated := sql_manager_.UpdateRecord(TABLE, Captions(p[0], p[1], p[2]), IdIs(id), completes);
      BecameIs(old(sql_manager_.db), sql_manager_.db, updated,
               CaptionsEffect(old(sql_manager_.db), id, p[0], p[1], p[2]), completes);
      if updated {
        return Some(Response(200, IdObject(id)));
      } else {
        return Some(Response(500, "An error occurred while trying to update the provided meme!\n"));
      }
    }

    method DeleteMeme(id: string, completes: bool) returns (r: Response)
      requires IsMemeTable(sql_manager_.db)
      modifies sql_manager_
      ensures sql_manager_.db == Step(Store(old(sql_manager_.db)), Action.Delete(id, completes)).table
      ensures r.status == 400 <==> !CheckId(id)
      ensures r.status == 500 ==> !completes
      ensures r.status == 200 ==> completes && r.body == IdObject(id)
      ensures r.status == 400 ==> r.body == "The provided meme delete request is invalid!\n"
      ensures r.status == 500 ==> r.body == "An error occurred while trying to delete the provided meme!\n"
      ensures r.status in {200, 400, 500}
      ensures r.status == 200 ==>
                && RowOf(sql_manager_.db.rows, id).None?
                && (sql_manager_.db != old(sql_manager_.db) <==> RowOf(old(sql_manager_.db).rows, id).Some?)
    {
      hide *;
      DeleteStep(sql_manager_.db, id, completes);
      if !CheckId(id) {
        return Response(400, "The provided meme delete request is invalid!\n");
      }
      NamesAreIdentifiers(id, "", "", "", "");
      TableIsOk(sql_manager_.db);
      IdIsPlain(id);
      DeleteById(sql_manager_.db, id, id);
      DeleteChangesIff(sql_manager_.db, id);
      var deleted := sql_manager_.DeleteRecord(TABLE, IdIs(id), completes);
      BecameIs(old(sql_manager_.db), sql_manager_.db, deleted,
               DeleteEffect(old(sql_manager_.db), TABLE, IdIs(id)), completes);
      if deleted {
        return Response(200, IdObject(id));
      } else {
        return Response(500, "An error occurred while trying to delete the provided meme!\n");
      }
    }

    /** Shows a meme and counts the view: here with no other request between the two statements. The
        count may fail to be stored without the answer changing. */
    method GetMemeById(id: string, failsAfter: Option<nat>, completes: bool) returns (r: Option<Response>)
      requires IsMemeTable(sql_manager_.db)
      modifies sql_manager_
      ensures var seen := Step(Store(old(sql_manager_.db)), Action.View(0, id, failsAfter));
              sql_manager_.db == if 0 in seen.pending then Step(seen, Action.Write(0, completes)).table else seen.table
      ensures var row := Picked(old(sql_manager_.db), id, failsAfter);
              && (row.None? ==> r == Some(Response(404, "The requested file could not be found!\n")))
              && (row.Some? ==> (r.None? <==> Stoi(row.value[4]).None?))
              && (row.Some? && r.Some? ==>
                    r.value == if row.value[1] == "" || row.value[2] == "" || row.value[3] == "" then
                                 Response(400, "The provided meme has been corrupted!")
                               else Response(200, MemeObject(row.value)))
    {
      hide *;
      NamesAreIdentifiers(id, "", "", "", "");
      TableIsOk(sql_manager_.db);
      SelectById(sql_manager_.db, id);
      ViewStep(sql_manager_.db, id, failsAfter, completes);
      var result := sql_manager_.SelectRecord(TABLE, IdIs(id), failsAfter);
      OneOrNone(sql_manager_.db, id, failsAfter);
      if |result| == 1 {
        var row := result[0];
        var curr := Stoi(row[4]);
        if curr.None? { return None; }
        var count := IntText(Bumped(curr.value));
        NamesAreIdentifiers(row[0], "", "", "", count);
        CountEffectIs(sql_manager_.db, row[0], count);
        var update := sql_manager_.UpdateRecord(TABLE, Count(count), IdIs(row[0]), completes);
        BecameIs(old(sql_manager_.db), sql_manager_.db, update,
                 CountEffect(old(sql_manager_.db), row[0], count), completes);
        if row[1] == "" || row[2] == "" || row[3] == "" {
          return Some(Response(400, "The provided meme has been corrupted!"));
        }
        return Some(Response(200, MemeObject(row)));
      } else {
        return Some(Response(404, "The requested file could not be found!\n"));
      }
    }

    /** The list of all memes. None when comparing counts throws. */
    method MemeList(failsAfter: Option<nat>) returns (r: Option<Response>)
      requires IsMemeTable(sql_manager_.db)
      ensures var rows := Delivered(Some(sql_manager_.db.rows), failsAfter);
              && (r.None? <==> Listed(rows).None?)
              && (r.Some? ==> Fives(Listed(rows).value)
                              && r.value == Response(200, ArrayText(Entries(Listed(rows).value))))
    {
      hide *;
      NamesAreIdentifiers("", "", "", "", "");
      TableIsOk(sql_manager_.db);
      SelectAll(sql_manager_.db);
      var result := sql_manager_.SelectRecord(TABLE, [], failsAfter);
      DeliveredFives(sql_manager_.db, failsAfter);
      var text := MemeListing.MemeList(result);
      if text.None? { return None; }
      return Some(Response(200, text.value));
    }
  }

  lemma NoneStaysNone(image: string, top: string, bottom: string)
    ensures CaptionsOn(None, image, top, bottom) == None
    ensures forall row :: CaptionsOn(Some(row), image, top, bottom).Some?
  {
  }

  lemma IdNeedsNoEscape(id: string)
    requires CheckId(id)
    ensures NeedsNoEscape(id)
  {
  }

  lemma IdObjectText(id: string)
    ensures IdObject(id) == ObjectText([Member("id", id)])
  {
    var m := Member("id", id);
    MembersCons(m, []);
    assert [m] + [] == [m];
    hide MembersText;
  }

  /** The answer to a creation, an update or a deletion is a JSON object with the id as its one member. */
  lemma IdAnswerIsObject(id: string)
    requires CheckId(id)
    ensures ReadObject(IdObject(id)) == Some([Member("id", id)])
  {
    IdNeedsNoEscape(id);
    hide *;
    var ms := [Member("id", id)];
    IdObjectText(id);
    assert forall i :: 0 <= i < |ms| ==> ms[i] == Member("id", id);
    assert NeedsNoEscape("id") by { NameNeedsNoEscape(); }
    ReadObjectText(ms);
  }

  lemma NameNeedsNoEscape()
    ensures NeedsNoEscape("id") && NeedsNoEscape("memeSelect")
    ensures NeedsNoEscape("topCaption") && NeedsNoEscape("bottomCaption")
  {
  }

  /** The members that the pages read from the answer to a view. */
  function MemeMembers(row: Row): seq<Member>
    requires |row| == 5
  {
    [Member("memeSelect", row[1]), Member("topCaption", row[2]), Member("bottomCaption", row[3])]
  }

  lemma PieceIs(opening: string, name: string, value: string)
    requires opening == "\"" + name + "\": \""
    ensures opening + value + "\"" == MemberText(Member(name, value))
    ensures opening + value + "\", " == MemberText(Member(name, value)) + ", "
  {
    assert "\", " == "\"" + ", ";
  }

  lemma PiecesAre(image: string, top: string, bottom: string)
    ensures "\"memeSelect\": \"" + image + "\", " == MemberText(Member("memeSelect", image)) + ", "
    ensures "\"topCaption\": \"" + top + "\", " == MemberText(Member("topCaption", top)) + ", "
    ensures "\"bottomCaption\": \"" + bottom + "\"" == MemberText(Member("bottomCaption", bottom))
  {
    hide MemberText;
    PieceIs("\"memeSelect\": \"", "memeSelect", image);
    PieceIs("\"topCaption\": \"", "topCaption", top);
    PieceIs("\"bottomCaption\": \"", "bottomCaption", bottom);
  }

  lemma Regroup(a: string, b: string, c: string)
    ensures "{" + (a + ", ") + (b + ", ") + c + "}" == "{" + (a + (", " + (b + (", " + c)))) + "}"
  {
  }

  lemma MemeObjectText(row: Row)
    requires |row| == 5
    ensures MemeObject(row) == ObjectText(MemeMembers(row))
  {
    var a, b, c := Member("memeSelect", row[1]), Member("topCaption", row[2]), Member("bottomCaption", row[3]);
    assert [c] + [] == [c] && [b] + [c] == [b, c] && [a] + [b, c] == [a, b, c];
    hide MembersText, MemberText;
    MembersCons(c, []);
    MembersCons(b, [c]);
    MembersCons(a, [b, c]);
    PiecesAre(row[1], row[2], row[3]);
    Regroup(MemberText(a), MemberText(b), MemberText(c));
  }

  /** The answer to a view of a stored row is a JSON object with exactly those members. */
  lemma MemeAnswerIsObject(row: Row)
    requires IsMemeRow(row)
    ensures |row| == 5 && ReadObject(MemeObject(row)) == Some(MemeMembers(row))
  {
    MemeRowIsPlain(row);
    assert PlainField(row[1]) && PlainField(row[2]) && PlainField(row[3]);
    MemeObjectText(row);
    NameNeedsNoEscape();
    hide ReadObject, MemeObject, IsMemeRow, ObjectText, NeedsNoEscape, Stoi;
    ReadObjectText(MemeMembers(row));
  }

  /** A view finds a meme, at any moment of any run, exactly when one is stored under the id and the
      engine delivers it; the answer is then an object with the stored template and captions, each under
      its name. */
  lemma ViewAnswersAnObject(log: seq<Action>, id: string, failsAfter: Option<nat>)
    requires Possible(log)
    ensures Replay(log).Some?
    ensures var row, stored := Picked(Replay(log).value.table, id, failsAfter), Stored(log, CString(id));
            && (row.Some? <==> stored.Some? && failsAfter != Some(0))
            && (row.Some? ==>
                  && |row.value| == 5
                  && ReadObject(MemeObject(row.value)) ==
                     Some([Member("memeSelect", stored.value.image), Member("topCaption", stored.value.top),
                           Member("bottomCaption", stored.value.bottom)]))
  {
    hide *;
    RowsOfLog(log, CString(id));
    ExpectedRow(log, CString(id));
    var t := Replay(log).value.table;
    PickedIs(t, id, failsAfter);
    if RowOf(t.rows, CString(id)).Some? && failsAfter != Some(0) {
      var row := RowOf(t.rows, CString(id)).value;
      EveryRowIsAMeme(log, row);
      MemeAnswerIsObject(row);
    }
  }

  lemma ExpectedRow(log: seq<Action>, key: string)
    ensures Expected(log, key).Some? <==> Stored(log, key).Some?
    ensures Expected(log, key).Some? ==>
              var row, m := Expected(log, key).value, Stored(log, key).value;
              && |row| == 5
              && MemeMembers(row) ==
                 [Member("memeSelect", m.image), Member("topCaption", m.top), Member("bottomCaption", m.bottom)]
  {
  }

  lemma CaptionsEffectIs(t: Table, id: string, image: string, top: string, bottom: string)
    requires TableOk(t)
    ensures CaptionsEffect(t, id, image, top, bottom) == UpdateEffect(t, TABLE, Captions(image, top, bottom), IdIs(id))
  {
  }

  lemma CountEffectIs(t: Table, id: string, count: string)
    requires TableOk(t)
    ensures CountEffect(t, id, count) == UpdateEffect(t, TABLE, Count(count), IdIs(id))
  {
  }

  lemma UpdateStep(t: Table, c: Checked, id: string, completes: bool)
    requires IsMemeTable(t) && Plausible(c)
    ensures var a := Action.Update(c, id, completes);
            && Enabled(Store(t), a)
            && Step(Store(t), a).table ==
               if c.Accepted? && CheckId(id) then
                 After(t, CaptionsEffect(t, id, c.params[0], c.params[1], c.params[2]), completes)
               else t
  {
  }

  lemma DeleteStep(t: Table, id: string, completes: bool)
    requires IsMemeTable(t)
    ensures Enabled(Store(t), Action.Delete(id, completes))
    ensures Step(Store(t), Action.Delete(id, completes)).table ==
            if CheckId(id) then After(t, DeleteEffect(t, TABLE, IdIs(id)), completes) else t
  {
  }

  lemma ViewStep(t: Table, id: string, failsAfter: Option<nat>, completes: bool)
    requires IsMemeTable(t)
    ensures Enabled(Store(t), Action.View(0, id, failsAfter))
    ensures var row := Picked(t, id, failsAfter);
            var seen := Step(Store(t), Action.View(0, id, failsAfter));
            && seen.table == t
            && (row.Some? ==> |row.value| == 5)
            && (0 in seen.pending <==> row.Some? && Stoi(row.value[4]).Some?)
            && (0 in seen.pending ==>
                  && Enabled(seen, Action.Write(0, completes))
                  && Step(seen, Action.Write(0, completes)).table ==
                     After(t, CountEffect(t, row.value[0], IntText(Bumped(Stoi(row.value[4]).value))), completes))
  {
    hide SelectEffect, Stoi, CountEffect;
  }

  lemma OneOrNone(t: Table, id: string, failsAfter: Option<nat>)
    requires IsMemeTable(t)
    ensures var rows := Delivered(SelectEffect(t, TABLE, IdIs(id)), failsAfter);
            Picked(t, id, failsAfter) == if |rows| == 1 then Some(rows[0]) else None
  {
    hide SelectEffect;
    SelectById(t, id);
    if RowOf(t.rows, CString(id)).Some? {
      RowsAreFive(t, CString(id));
    }
  }

  lemma DeliveredFives(t: Table, failsAfter: Option<nat>)
    requires IsMemeTable(t)
    ensures Fives(Delivered(Some(t.rows), failsAfter))
  {
    forall i | 0 <= i < |t.rows|
      ensures |t.rows[i]| == 5
    {
      assert |t.rows[i]| == |COLUMNS|;
    }
  }

  lemma TableIsOk(t: Table)
    requires IsMemeTable(t)
    ensures TableOk(t)
  {
  }

  lemma PlausibleHasThree(c: Checked)
    requires Plausible(c) && c.Accepted?
    ensures |c.params| == 3
  {
  }

  lemma InsertChanges(t: Table, sels: seq<Selector>)
    requires TableOk(t)
    ensures InsertEffect(t, TABLE, sels).Some? ==> InsertEffect(t, TABLE, sels).value != t
  {
    if InsertEffect(t, TABLE, sels).Some? {
      assert |InsertEffect(t, TABLE, sels).value.rows| == |t.rows| + 1;
    }
  }

  lemma BecameIs(before: Table, after: Table, ok: bool, effect: Option<Table>, completes: bool)
    requires Became(before, after, ok, if completes then effect else None)
    ensures after == After(before, effect, completes) && ok == (completes && effect.Some?)
    ensures after == if ok then effect.value else before
  {
  }

  lemma CreateStep(t: Table, c: Checked, id: string, completes: bool)
    requires IsMemeTable(t) && GeneratedId(id) && Plausible(c)
    ensures var a := Action.Create(c, id, completes);
            && Enabled(Store(t), a)
            && Step(Store(t), a).table ==
               if c.Accepted? then
                 After(t, InsertEffect(t, TABLE, NewMeme(id, c.params[0], c.params[1], c.params[2])), completes)
               else t
  {
  }
}
