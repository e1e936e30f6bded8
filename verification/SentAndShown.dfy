/** From the form that a page sends to the object that later viewers get. */
module SentAndShown {
  import opened Text
  import opened UriCodec
  import opened FormBody
  import opened WrittenForms
  import opened JsonStrings
  import opened MemeHistory
  import opened MemeStore
  import opened MemeHandler

  /** A step that leaves the captions under an id alone: anything but a completed caption update or
      deletion of it. */
  predicate LeavesAlone(a: Action, id: string) {
    match a
    case Update(_, key, completes) => key != id || !completes
    case Delete(key, completes) => key != id || !completes
    case _ => true
  }

  lemma {:induction false} StaysStored(log: seq<Action>, later: seq<Action>, id: string)
    requires Possible(log + later) && Stored(log, id).Some?
    requires forall i :: 0 <= i < |later| ==> LeavesAlone(later[i], id)
    ensures Stored(log + later, id) == Stored(log, id)
    decreases |later|
  {
    if later == [] {
      assert log + later == log;
    } else {
      var front := Front(later);
      assert Front(log + later) == log + front && Back(log + later) == Back(later);
      assert forall i :: 0 <= i < |front| ==> front[i] == later[i];
      StaysStored(log, front, id);
      StoredIsTaken(log + front, id);
      hide GeneratedId, Presentable, FreshIn;
    }
  }

  lemma StoredIsTaken(log: seq<Action>, id: string)
    requires Possible(log) && Stored(log, id).Some?
    ensures !FreshIn(log, id)
  {
    StoredIsGenerated(log, id);
  }

  /** The request that sends a form: a creation under a new id, or a caption update of a stored meme,
      whose statement completes. */
  predicate Sends(log: seq<Action>, a: Action, id: string, checked: Checked) {
    || a == Create(checked, id, true)
    || (a == Update(checked, id, true) && Stored(log, id).Some?)
  }

  lemma SentIsStored(log: seq<Action>, a: Action, id: string, image: Bytes, top: Bytes, bottom: Bytes)
    requires Sends(log, a, id, Accepted([image, top, bottom])) && Possible(log + [a])
    ensures Stored(log + [a], id) == Some(Meme(image, top, bottom))
  {
    Snoc(log, a);
    if a.Update? {
      StoredIsGenerated(log, id);
    }
    hide GeneratedId, Presentable, FreshIn;
  }

  /** Main result: when a form with accepted values has been sent, in any percent-encoding, then as long
      as the meme's captions are neither updated nor deleted, and whatever else any requests do meanwhile,
      every view that the engine delivers is answered with a JSON object with exactly these values, each
      under its own name. */
  lemma SentIsShown(log: seq<Action>, a: Action, later: seq<Action>, id: string, f: Sent, ext: Extraction,
                    failsAfter: Option<nat>)
    requires f.Ok() && CaptionOnly(f.image) && HasJpg(f.image)
    requires f.top != [] && CaptionOnly(f.top) && f.bottom != [] && CaptionOnly(f.bottom)
    requires Sends(log, a, id, CheckBody(Body(f.imageText, f.topText, f.bottomText), ext))
    requires Possible(log + [a] + later) && forall i :: 0 <= i < |later| ==> LeavesAlone(later[i], id)
    requires failsAfter != Some(0)
    ensures Replay(log + [a] + later).Some?
    ensures var row := Picked(Replay(log + [a] + later).value.table, id, failsAfter);
            && row.Some? && |row.value| == 5
            && ReadObject(MemeObject(row.value)) ==
               Some([Member("memeSelect", f.image), Member("topCaption", f.top), Member("bottomCaption", f.bottom)])
  {
    hide *;
    StoredAsSentIff(f, ext);
    PossibleBefore(log + [a], later);
    SentIsStored(log, a, id, f.image, f.top, f.bottom);
    StaysStored(log + [a], later, id);
    StoredIsGenerated(log + [a] + later, id);
    ViewAnswersAnObject(log + [a] + later, id, failsAfter);
  }

  lemma {:induction false} PossibleBefore(log: seq<Action>, later: seq<Action>)
    requires Possible(log + later)
    ensures Possible(log)
    decreases |later|
  {
    if later == [] {
      assert log + later == log;
    } else {
      assert Front(log + later) == log + Front(later);
      PossibleBefore(log, Front(later));
    }
  }
}
