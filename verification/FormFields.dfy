/** What a form body stores, for values of any kind. The whole body is decoded before it is scanned, so
    a value is cut at its first character that no value may hold, and what follows there is scanned for
    further fields, which count like the three of the form. */
module FormFields {
  import opened Text
  import opened UriCodec
  import opened FormBody

  // ----- an ampersand separates fields -----

  lemma WordPrefixStops(p: Bytes, r: Bytes)
    ensures WordPrefix(p + (['&'] + r)) == WordPrefix(p)
  {
    WordPrefixSplits(p);
    var w := WordPrefix(p);
    var rest := p[|w|..] + (['&'] + r);
    assert p + (['&'] + r) == w + rest;
    WordPrefixIs(w, rest);
  }

  lemma ValuePrefixStops(p: Bytes, r: Bytes)
    ensures ValuePrefix(p + (['&'] + r)) == ValuePrefix(p)
  {
    ValuePrefixSplits(p);
    var v := ValuePrefix(p);
    var rest := p[|v|..] + (['&'] + r);
    assert p + (['&'] + r) == v + rest;
    ValuePrefixIs(v, rest);
  }

  /** What is left after a match in front of an ampersand. */
  function Rejoined(rest: Bytes, r: Bytes): Bytes {
    if rest == [] then SkipAmpersands(r) else rest + (['&'] + r)
  }

  lemma {:induction false} SkipThrough(p: Bytes, r: Bytes)
    ensures SkipAmpersands(p + (['&'] + r)) == Rejoined(SkipAmpersands(p), r)
  {
    if p == [] {
      assert p + (['&'] + r) == ['&'] + r && (['&'] + r)[1..] == r;
    } else if p[0] == '&' {
      assert (p + (['&'] + r))[1..] == p[1..] + (['&'] + r);
      SkipThrough(p[1..], r);
    }
  }

  lemma MatchHereThrough(p: Bytes, r: Bytes)
    ensures MatchHere(p + (['&'] + r)) ==
            match MatchHere(p)
            case None => None
            case Some(m) => Some(Match(m.field, Rejoined(m.rest, r)))
  {
    var s := p + (['&'] + r);
    var k := |WordPrefix(p)|;
    WordPrefixSplits(p);
    WordPrefixStops(p, r);
    hide WordPrefix, SkipAmpersands;
    if 0 < k < |p| && p[k] == '=' {
      var q := p[k + 1..];
      assert s[k + 1..] == q + (['&'] + r) && s[..k] == p[..k];
      ValuePrefixSplits(q);
      ValuePrefixStops(q, r);
      hide ValuePrefix;
      var n := |ValuePrefix(q)|;
      assert (q + (['&'] + r))[n..] == q[n..] + (['&'] + r);
      SkipThrough(q[n..], r);
    }
  }

  lemma NextMatchSkips(r: Bytes)
    ensures NextMatch(['&'] + r) == NextMatch(r)
  {
    assert (['&'] + r)[1..] == r;
    assert MatchHere(['&'] + r) == None;
  }

  lemma {:induction false} NextMatchThrough(p: Bytes, r: Bytes)
    ensures NextMatch(p + (['&'] + r)) ==
            match NextMatch(p)
            case None => NextMatch(r)
            case Some(m) => Some(Match(m.field, Rejoined(m.rest, r)))
  {
    hide MatchHere;
    if p == [] {
      assert p + (['&'] + r) == ['&'] + r;
      NextMatchSkips(r);
    } else {
      assert (p + (['&'] + r))[1..] == p[1..] + (['&'] + r);
      MatchHereThrough(p, r);
      NextMatchThrough(p[1..], r);
    }
  }

  lemma SameNextMatch(a: Bytes, b: Bytes)
    requires NextMatch(a) == NextMatch(b)
    ensures Fields(a) == Fields(b)
  {
  }

  lemma {:induction false} FieldsSkip(r: Bytes)
    ensures Fields(SkipAmpersands(r)) == Fields(r)
  {
    if r != [] && r[0] == '&' {
      assert r == ['&'] + r[1..];
      NextMatchSkips(r[1..]);
      SameNextMatch(r, r[1..]);
      FieldsSkip(r[1..]);
    }
  }

  lemma FieldsNext(s: Bytes)
    ensures Fields(s) == match NextMatch(s) case None => [] case Some(m) => [m.field] + Fields(m.rest)
  {
  }

  /** No field reaches across an ampersand: the fields of two texts joined by one are the fields of the
      first and then those of the second. */
  lemma {:induction false} FieldsConcat(p: Bytes, r: Bytes)
    ensures Fields(p + (['&'] + r)) == Fields(p) + Fields(r)
    decreases |p|
  {
    hide *;
    var s := p + (['&'] + r);
    NextMatchThrough(p, r);
    FieldsNext(p);
    if NextMatch(p).None? {
      SameNextMatch(s, r);
      assert [] + Fields(r) == Fields(r);
    } else {
      var m := NextMatch(p).value;
      FieldsNext(s);
      RejoinedFields(m.rest, r);
      if m.rest != [] { FieldsConcat(m.rest, r); }
      Concatenation([m.field], Fields(m.rest), Fields(r));
    }
  }

  lemma RejoinedFields(rest: Bytes, r: Bytes)
    ensures rest != [] ==> Rejoined(rest, r) == rest + (['&'] + r)
    ensures rest == [] ==> Fields(Rejoined(rest, r)) == Fields(rest) + Fields(r)
  {
    FieldsSkip(r);
    assert Fields([]) == [];
    assert [] + Fields(r) == Fields(r);
  }

  // ----- the fields of one pair -----

  /** The field that the form means to send, with the value cut at the first character that no value
      may hold; there is none when nothing is left. */
  function Own(key: Bytes, value: Bytes): seq<Field> {
    if ValuePrefix(value) == [] then [] else [Field(key, ValuePrefix(value))]
  }

  function CutOff(value: Bytes): Bytes {
    ValuePrefixSplits(value);
    value[|ValuePrefix(value)|..]
  }

  /** The further fields read in what was cut off. */
  function Planted(value: Bytes): seq<Field> {
    Fields(CutOff(value))
  }

  lemma {:induction false} NothingOfItsOwn(key: Bytes, value: Bytes)
    requires AreWordChars(key) && ValuePrefix(value) == []
    ensures NextMatch(key + (['='] + value)) == NextMatch(value)
  {
    var s := key + (['='] + value);
    WordPrefixIs(key, ['='] + value);
    assert s[|key| + 1..] == value && s[|key|] == '=';
    assert MatchHere(s) == None;
    hide MatchHere, ValuePrefix, WordPrefix;
    if key == [] {
      assert s[1..] == value;
    } else {
      assert s[1..] == key[1..] + (['='] + value);
      NothingOfItsOwn(key[1..], value);
    }
  }

  /** A pair is read as its own field and the planted ones. */
  lemma FieldsOfPair(key: Bytes, value: Bytes)
    requires key != [] && AreWordChars(key)
    ensures Fields(key + (['='] + value)) == Own(key, value) + Planted(value)
  {
    ValuePrefixSplits(value);
    var v := ValuePrefix(value);
    var rest := value[|v|..];
    if v == [] {
      NothingOfItsOwn(key, value);
      SameNextMatch(key + (['='] + value), value);
      assert rest == value;
      assert [] + Fields(rest) == Fields(rest);
    } else {
      assert value == v + rest;
      MatchAtPair(key, v, rest);
      FieldsSkip(rest);
      hide MatchHere, ValuePrefix;
      FieldsStep(key + (['='] + value));
    }
  }

  // ----- the fields of a form -----

  /** The fields read from a form with these values, in order. */
  function FormFieldsOf(image: Bytes, top: Bytes, bottom: Bytes): seq<Field> {
    Own(IMAGE_KEY, image) + (Planted(image)
    + (Own(TOP_KEY, top) + (Planted(top)
    + (Own(BOTTOM_KEY, bottom) + Planted(bottom)))))
  }

  lemma FormIs(image: Bytes, top: Bytes, bottom: Bytes)
    ensures Form(image, top, bottom) ==
            (IMAGE_KEY + (['='] + image))
            + (['&'] + ((TOP_KEY + (['='] + top)) + (['&'] + (BOTTOM_KEY + (['='] + bottom)))))
  {
    Concatenation(IMAGE_KEY, ['='], image);
    Concatenation(TOP_KEY, ['='], top);
    Concatenation(BOTTOM_KEY, ['='], bottom);
    assert ['&'] + BOTTOM_KEY + ['='] + bottom == ['&'] + (BOTTOM_KEY + ['='] + bottom);
    assert ['&'] + TOP_KEY + ['='] + top + (['&'] + BOTTOM_KEY + ['='] + bottom)
        == ['&'] + (TOP_KEY + ['='] + top + (['&'] + (BOTTOM_KEY + ['='] + bottom)));
  }

  lemma KeysAreWords()
    ensures IMAGE_KEY != [] && AreWordChars(IMAGE_KEY)
    ensures TOP_KEY != [] && AreWordChars(TOP_KEY)
    ensures BOTTOM_KEY != [] && AreWordChars(BOTTOM_KEY)
    ensures IMAGE_KEY != TOP_KEY && TOP_KEY != BOTTOM_KEY && IMAGE_KEY != BOTTOM_KEY
  {
    assert IMAGE_KEY[0] != TOP_KEY[0] && IMAGE_KEY[0] != BOTTOM_KEY[0] && TOP_KEY[0] != BOTTOM_KEY[0];
  }

  lemma FieldsOfAnyForm(image: Bytes, top: Bytes, bottom: Bytes)
    ensures Fields(Form(image, top, bottom)) == FormFieldsOf(image, top, bottom)
  {
    hide *;
    var a, b, c := IMAGE_KEY + (['='] + image), TOP_KEY + (['='] + top), BOTTOM_KEY + (['='] + bottom);
    KeysAreWords();
    FormIs(image, top, bottom);
    FieldsConcat(a, b + (['&'] + c));
    FieldsConcat(b, c);
    FieldsOfPair(IMAGE_KEY, image);
    FieldsOfPair(TOP_KEY, top);
    FieldsOfPair(BOTTOM_KEY, bottom);
    Flatten(image, top, bottom);
  }

  lemma Flatten(image: Bytes, top: Bytes, bottom: Bytes)
    ensures (Own(IMAGE_KEY, image) + Planted(image))
            + ((Own(TOP_KEY, top) + Planted(top)) + (Own(BOTTOM_KEY, bottom) + Planted(bottom)))
            == FormFieldsOf(image, top, bottom)
  {
    hide Own, Planted;
  }

  /** What the server makes of a form whose values, of any kind, are sent in any percent-encoding. */
  lemma FormOutcome(f: Sent, ext: Extraction)
    requires f.Ok()
    ensures CheckBody(f.Body(), ext) == CheckFields(FormFieldsOf(f.image, f.top, f.bottom))
  {
    DecodeForm(f, ext);
    FieldsOfAnyForm(f.image, f.top, f.bottom);
    hide Decode, Fields, FormFieldsOf, CheckFields, Encodes, Form;
  }

  // ----- where a stored value comes from -----

  predicate HasKey(fields: seq<Field>, key: Bytes) {
    exists i :: 0 <= i < |fields| && fields[i].key == key
  }

  /** The position of the field that gives the value of a key: the last one. */
  function Origin(key: Bytes, fields: seq<Field>): (r: Option<nat>)
    ensures r.Some? ==> r.value < |fields| && fields[r.value].key == key
    decreases |fields|
  {
    if fields == [] then None
    else if Back(fields).key == key then Some(|fields| - 1)
    else Origin(key, Front(fields))
  }

  lemma {:induction false} LastValueSnoc(before: Bytes, key: Bytes, fields: seq<Field>, f: Field)
    ensures LastValue(before, key, fields + [f]) == if f.key == key then f.value else LastValue(before, key, fields)
    decreases fields
  {
    if fields == [] {
      assert fields + [f] == [f] && [f][1..] == [];
    } else {
      assert (fields + [f])[1..] == fields[1..] + [f];
      LastValueSnoc(if fields[0].key == key then fields[0].value else before, key, fields[1..], f);
    }
  }

  /** The value checked and stored is that of the origin, and empty without one. */
  lemma {:induction false} ValueOfOrigin(key: Bytes, fields: seq<Field>)
    ensures LastValue([], key, fields) ==
            match Origin(key, fields) case None => [] case Some(i) => fields[i].value
    decreases |fields|
  {
    if fields != [] {
      ValueOfOrigin(key, Front(fields));
      assert fields == Front(fields) + [Back(fields)];
      LastValueSnoc([], key, Front(fields), Back(fields));
    }
  }

  lemma {:induction false} OriginIff(key: Bytes, before: seq<Field>, own: Field, after: seq<Field>)
    requires own.key == key
    ensures Origin(key, before + ([own] + after)) == Some(|before|) <==> !HasKey(after, key)
    decreases |after|
  {
    var fields := before + ([own] + after);
    if after == [] {
      assert Back(fields) == own && |fields| == |before| + 1;
    } else {
      assert Back(fields) == Back(after);
      assert Front(fields) == before + ([own] + Front(after));
      if Back(after).key == key {
        assert after[|after| - 1].key == key;
      } else {
        OriginIff(key, before, own, Front(after));
        HasKeyFront(after, key);
      }
    }
  }

  lemma HasKeyFront(fields: seq<Field>, key: Bytes)
    requires fields != [] && Back(fields).key != key
    ensures HasKey(fields, key) <==> HasKey(Front(fields), key)
  {
    if HasKey(fields, key) {
      var i :| 0 <= i < |fields| && fields[i].key == key;
      assert Front(fields)[i].key == key;
    }
    if HasKey(Front(fields), key) {
      var i :| 0 <= i < |Front(fields)| && Front(fields)[i].key == key;
      assert fields[i].key == key;
    }
  }

  lemma HasKeyConcat(a: seq<Field>, b: seq<Field>, key: Bytes)
    ensures HasKey(a + b, key) <==> HasKey(a, key) || HasKey(b, key)
  {
    if HasKey(a, key) {
      var i :| 0 <= i < |a| && a[i].key == key;
      assert (a + b)[i].key == key;
    }
    if HasKey(b, key) {
      var i :| 0 <= i < |b| && b[i].key == key;
      assert (a + b)[|a| + i].key == key;
    }
    if HasKey(a + b, key) {
      var i :| 0 <= i < |a + b| && (a + b)[i].key == key;
      if i < |a| {
        assert a[i].key == key;
      } else {
        assert b[i - |a|].key == key;
      }
    }
  }

  lemma OwnKey(key: Bytes, value: Bytes, other: Bytes)
    ensures HasKey(Own(key, value), other) <==> ValuePrefix(value) != [] && key == other
  {
    if ValuePrefix(value) != [] {
      assert Own(key, value)[0].key == key;
    }
  }

  /** Where the form's own field for the top caption stands among all fields, if there is one. */
  function TopPlace(image: Bytes): nat {
    |Own(IMAGE_KEY, image)| + |Planted(image)|
  }

  /** And the one for the bottom caption. */
  function BottomPlace(image: Bytes, top: Bytes): nat {
    TopPlace(image) + |Own(TOP_KEY, top)| + |Planted(top)|
  }

  lemma OwnIs(key: Bytes, value: Bytes)
    requires ValuePrefix(value) != []
    ensures Own(key, value) == [Field(key, ValuePrefix(value))]
  {
  }

  lemma FieldsAre(image: Bytes, top: Bytes, bottom: Bytes)
    ensures FormFieldsOf(image, top, bottom) ==
            Own(IMAGE_KEY, image) + (Planted(image)
            + (Own(TOP_KEY, top) + (Planted(top)
            + (Own(BOTTOM_KEY, bottom) + Planted(bottom)))))
    ensures TopPlace(image) == |Own(IMAGE_KEY, image) + Planted(image)|
    ensures BottomPlace(image, top) ==
            |(Own(IMAGE_KEY, image) + Planted(image)) + (Own(TOP_KEY, top) + Planted(top))|
  {
  }

  /** The fields behind the form's own one decide whether its value counts. */
  lemma OwnIff(before: seq<Field>, key: Bytes, value: Bytes, after: seq<Field>)
    requires ValuePrefix(value) != []
    ensures Origin(key, before + (Own(key, value) + after)) == Some(|before|) <==> !HasKey(after, key)
  {
    hide *;
    OwnIs(key, value);
    OriginIff(key, before, Field(key, ValuePrefix(value)), after);
  }

  lemma ImageIsOwnIff(image: Bytes, top: Bytes, bottom: Bytes)
    requires ValuePrefix(image) != []
    ensures Origin(IMAGE_KEY, FormFieldsOf(image, top, bottom)) == Some(0)
            <==> !HasKey(Planted(image), IMAGE_KEY) && !HasKey(Planted(top), IMAGE_KEY)
                 && !HasKey(Planted(bottom), IMAGE_KEY)
  {
    hide *;
    KeysAreWords();
    OwnKey(TOP_KEY, top, IMAGE_KEY);
    OwnKey(BOTTOM_KEY, bottom, IMAGE_KEY);
    FieldsAre(image, top, bottom);
    var last := Own(BOTTOM_KEY, bottom) + Planted(bottom);
    var middle := Own(TOP_KEY, top) + (Planted(top) + last);
    HasKeyConcat(Own(BOTTOM_KEY, bottom), Planted(bottom), IMAGE_KEY);
    HasKeyConcat(Planted(top), last, IMAGE_KEY);
    HasKeyConcat(Own(TOP_KEY, top), Planted(top) + last, IMAGE_KEY);
    HasKeyConcat(Planted(image), middle, IMAGE_KEY);
    OwnIff([], IMAGE_KEY, image, Planted(image) + middle);
    Nothing(Own(IMAGE_KEY, image) + (Planted(image) + middle));
  }

  lemma Nothing(fields: seq<Field>)
    ensures [] + fields == fields
  {
  }

  lemma TopIsOwnIff(image: Bytes, top: Bytes, bottom: Bytes)
    requires ValuePrefix(top) != []
    ensures Origin(TOP_KEY, FormFieldsOf(image, top, bottom)) == Some(TopPlace(image))
            <==> !HasKey(Planted(top), TOP_KEY) && !HasKey(Planted(bottom), TOP_KEY)
  {
    hide *;
    KeysAreWords();
    OwnKey(BOTTOM_KEY, bottom, TOP_KEY);
    FieldsAre(image, top, bottom);
    var last := Own(BOTTOM_KEY, bottom) + Planted(bottom);
    var rest := Own(TOP_KEY, top) + (Planted(top) + last);
    HasKeyConcat(Own(BOTTOM_KEY, bottom), Planted(bottom), TOP_KEY);
    HasKeyConcat(Planted(top), last, TOP_KEY);
    OwnIff(Own(IMAGE_KEY, image) + Planted(image), TOP_KEY, top, Planted(top) + last);
    Concatenation(Own(IMAGE_KEY, image), Planted(image), rest);
  }

  lemma BottomIsOwnIff(image: Bytes, top: Bytes, bottom: Bytes)
    requires ValuePrefix(bottom) != []
    ensures Origin(BOTTOM_KEY, FormFieldsOf(image, top, bottom)) == Some(BottomPlace(image, top))
            <==> !HasKey(Planted(bottom), BOTTOM_KEY)
  {
    hide *;
    FieldsAre(image, top, bottom);
    var first, middle := Own(IMAGE_KEY, image) + Planted(image), Own(TOP_KEY, top) + Planted(top);
    var last := Own(BOTTOM_KEY, bottom) + Planted(bottom);
    OwnIff(first + middle, BOTTOM_KEY, bottom, Planted(bottom));
    Concatenation(Own(TOP_KEY, top), Planted(top), last);
    Concatenation(Own(IMAGE_KEY, image), Planted(image), middle + last);
    Concatenation(first, middle, last);
  }

  /** When the template and both captions come from the form's own fields. */
  predicate NothingReplaced(image: Bytes, top: Bytes, bottom: Bytes) {
    && !HasKey(Planted(image), IMAGE_KEY) && !HasKey(Planted(top), IMAGE_KEY) && !HasKey(Planted(bottom), IMAGE_KEY)
    && !HasKey(Planted(top), TOP_KEY) && !HasKey(Planted(bottom), TOP_KEY)
    && !HasKey(Planted(bottom), BOTTOM_KEY)
  }

  /** The three checked and stored values come from the form's own three fields. */
  predicate FromOwnFields(image: Bytes, top: Bytes, bottom: Bytes) {
    var fields := FormFieldsOf(image, top, bottom);
    && ValuePrefix(image) != [] && Origin(IMAGE_KEY, fields) == Some(0)
    && ValuePrefix(top) != [] && Origin(TOP_KEY, fields) == Some(TopPlace(image))
    && ValuePrefix(bottom) != [] && Origin(BOTTOM_KEY, fields) == Some(BottomPlace(image, top))
  }

  lemma FromOwnFieldsIff(image: Bytes, top: Bytes, bottom: Bytes)
    ensures FromOwnFields(image, top, bottom) <==>
            && ValuePrefix(image) != [] && ValuePrefix(top) != [] && ValuePrefix(bottom) != []
            && NothingReplaced(image, top, bottom)
  {
    if ValuePrefix(image) != [] { ImageIsOwnIff(image, top, bottom); }
    if ValuePrefix(top) != [] { TopIsOwnIff(image, top, bottom); }
    if ValuePrefix(bottom) != [] { BottomIsOwnIff(image, top, bottom); }
    hide ValuePrefix, FormFieldsOf, Origin, HasKey, Planted, TopPlace, BottomPlace;
  }

  /** Main result: of any form, in any percent-encoding, what is checked and stored comes from the
      form's own three fields if and only if every value begins with a value character and no field
      that would replace one of the three is planted in what was cut off; it is then each value up to
      its first other character. */
  lemma OwnValuesIff(f: Sent, ext: Extraction)
    requires f.Ok()
    ensures FromOwnFields(f.image, f.top, f.bottom) <==>
            && ValuePrefix(f.image) != [] && ValuePrefix(f.top) != [] && ValuePrefix(f.bottom) != []
            && NothingReplaced(f.image, f.top, f.bottom)
    ensures FromOwnFields(f.image, f.top, f.bottom) ==>
              CheckBody(f.Body(), ext) ==
              CheckValues(ValuePrefix(f.image), ValuePrefix(f.top), ValuePrefix(f.bottom))
  {
    hide *;
    var fields := FormFieldsOf(f.image, f.top, f.bottom);
    FromOwnFieldsIff(f.image, f.top, f.bottom);
    if FromOwnFields(f.image, f.top, f.bottom) {
      FormOutcome(f, ext);
      OwnOrigins(f.image, f.top, f.bottom);
      ValueOfOrigin(IMAGE_KEY, fields);
      ValueOfOrigin(TOP_KEY, fields);
      ValueOfOrigin(BOTTOM_KEY, fields);
      CheckFieldsIs(fields);
    }
  }

  lemma OwnOrigins(image: Bytes, top: Bytes, bottom: Bytes)
    requires FromOwnFields(image, top, bottom)
    ensures var fields := FormFieldsOf(image, top, bottom);
            && Origin(IMAGE_KEY, fields) == Some(0) && 0 < |fields|
            && fields[0].value == ValuePrefix(image)
            && Origin(TOP_KEY, fields) == Some(TopPlace(image)) && TopPlace(image) < |fields|
            && fields[TopPlace(image)].value == ValuePrefix(top)
            && Origin(BOTTOM_KEY, fields) == Some(BottomPlace(image, top)) && BottomPlace(image, top) < |fields|
            && fields[BottomPlace(image, top)].value == ValuePrefix(bottom)
  {
    PlacesHold(image, top, bottom);
    hide ValuePrefix, FormFieldsOf, Origin, TopPlace, BottomPlace;
  }

  lemma CheckFieldsIs(fields: seq<Field>)
    ensures CheckFields(fields) ==
            CheckValues(LastValue([], IMAGE_KEY, fields), LastValue([], TOP_KEY, fields),
                        LastValue([], BOTTOM_KEY, fields))
  {
  }

  /** The form's own fields stand at their places. */
  lemma PlacesHold(image: Bytes, top: Bytes, bottom: Bytes)
    requires ValuePrefix(image) != [] && ValuePrefix(top) != [] && ValuePrefix(bottom) != []
    ensures var fields := FormFieldsOf(image, top, bottom);
            && 0 < TopPlace(image) < BottomPlace(image, top) < |fields|
            && fields[0] == Field(IMAGE_KEY, ValuePrefix(image))
            && fields[TopPlace(image)] == Field(TOP_KEY, ValuePrefix(top))
            && fields[BottomPlace(image, top)] == Field(BOTTOM_KEY, ValuePrefix(bottom))
  {
    hide Planted, ValuePrefix;
  }

  // ----- values that plant nothing -----

  /** A word character, an equals sign and a value character in a row. */
  predicate PairAt(s: Bytes, i: int) {
    0 < i < |s| - 1 && IsWordChar(s[i - 1]) && s[i] == '=' && IsValueChar(s[i + 1])
  }

  predicate HasPair(s: Bytes) {
    exists i :: 0 < i < |s| - 1 && PairAt(s, i)
  }

  lemma MatchHasPair(s: Bytes)
    requires MatchHere(s).Some?
    ensures HasPair(s)
  {
    WordPrefixSplits(s);
    var k := |WordPrefix(s)|;
    ValuePrefixSplits(s[k + 1..]);
    assert PairAt(s, k);
  }

  lemma PairMatches(s: Bytes)
    requires PairAt(s, 1)
    ensures MatchHere(s).Some?
  {
    var rest := s[1..];
    assert s == [s[0]] + rest;
    WordPrefixIs([s[0]], rest);
    assert s[2..][0] == s[2];
  }

  /** A text holds no field exactly when nowhere in it a word character, an equals sign and a value
      character follow one another. */
  lemma {:induction false} NoFieldsIff(s: Bytes)
    ensures NextMatch(s).None? <==> !HasPair(s)
  {
    hide MatchHere;
    if s != [] {
      NoFieldsIff(s[1..]);
      if MatchHere(s).Some? {
        MatchHasPair(s);
      } else {
        if HasPair(s) {
          var i :| 0 < i < |s| - 1 && PairAt(s, i);
          if i == 1 {
            PairMatches(s);
          } else {
            assert PairAt(s[1..], i - 1);
          }
        }
        if HasPair(s[1..]) {
          var i :| 0 < i < |s| - 2 && PairAt(s[1..], i);
          assert PairAt(s, i + 1);
        }
      }
    }
  }

  lemma PlantsNothingIff(value: Bytes)
    ensures Planted(value) == [] <==> !HasPair(CutOff(value))
  {
    NoFieldsIff(CutOff(value));
    FieldsNext(CutOff(value));
    hide Fields, NextMatch, HasPair, CutOff;
  }

  lemma WithoutEquals(value: Bytes)
    requires '=' !in value
    ensures Planted(value) == []
  {
    PlantsNothingIff(value);
    ValuePrefixSplits(value);
    var s := CutOff(value);
    assert forall i :: 0 <= i < |s| ==> s[i] == value[|value| - |s| + i];
    hide Planted, ValuePrefix, CutOff;
    forall i | 0 < i < |s| - 1
      ensures !PairAt(s, i)
    {
      assert s[i] == value[|value| - |s| + i];
    }
  }

  /** Values without an equals sign are only ever cut, and what is left of them is checked. */
  lemma CutOutcome(f: Sent, ext: Extraction)
    requires f.Ok() && '=' !in f.image && '=' !in f.top && '=' !in f.bottom
    ensures CheckBody(f.Body(), ext) == CheckValues(ValuePrefix(f.image), ValuePrefix(f.top), ValuePrefix(f.bottom))
  {
    FormOutcome(f, ext);
    WithoutEquals(f.image);
    WithoutEquals(f.top);
    WithoutEquals(f.bottom);
    hide *;
    OwnOnly(f.image, f.top, f.bottom);
  }

  lemma OwnOnly(image: Bytes, top: Bytes, bottom: Bytes)
    requires Planted(image) == [] && Planted(top) == [] && Planted(bottom) == []
    ensures CheckFields(FormFieldsOf(image, top, bottom)) ==
            CheckValues(ValuePrefix(image), ValuePrefix(top), ValuePrefix(bottom))
  {
    var i, t, b := Own(IMAGE_KEY, image), Own(TOP_KEY, top), Own(BOTTOM_KEY, bottom);
    var fields := FormFieldsOf(image, top, bottom);
    assert fields == i + (t + b);
    KeysAreWords();
    hide Planted, FormFieldsOf, ValuePrefix;
    LastOfOwns(image, top, bottom, IMAGE_KEY);
    LastOfOwns(image, top, bottom, TOP_KEY);
    LastOfOwns(image, top, bottom, BOTTOM_KEY);
  }

  lemma LastOfOwn(before: Bytes, own: Bytes, value: Bytes, rest: seq<Field>, key: Bytes)
    ensures LastValue(before, key, Own(own, value) + rest) ==
            LastValue(if own == key && ValuePrefix(value) != [] then ValuePrefix(value) else before, key, rest)
  {
    if ValuePrefix(value) == [] {
      assert Own(own, value) + rest == rest;
    } else {
      LastValueCons(before, key, Field(own, ValuePrefix(value)), rest);
    }
  }

  lemma LastOfOwns(image: Bytes, top: Bytes, bottom: Bytes, key: Bytes)
    ensures LastValue([], key, Own(IMAGE_KEY, image) + (Own(TOP_KEY, top) + Own(BOTTOM_KEY, bottom))) ==
            if key == BOTTOM_KEY && ValuePrefix(bottom) != [] then ValuePrefix(bottom)
            else if key == TOP_KEY && ValuePrefix(top) != [] then ValuePrefix(top)
            else if key == IMAGE_KEY then ValuePrefix(image)
            else []
  {
    KeysAreWords();
    hide Own, ValuePrefix, LastValue;
    var a := if key == IMAGE_KEY && ValuePrefix(image) != [] then ValuePrefix(image) else [];
    var b := if key == TOP_KEY && ValuePrefix(top) != [] then ValuePrefix(top) else a;
    LastOfOwn([], IMAGE_KEY, image, Own(TOP_KEY, top) + Own(BOTTOM_KEY, bottom), key);
    LastOfOwn(a, TOP_KEY, top, Own(BOTTOM_KEY, bottom), key);
    assert Own(BOTTOM_KEY, bottom) + [] == Own(BOTTOM_KEY, bottom);
    LastOfOwn(b, BOTTOM_KEY, bottom, [], key);
    LastOfNone(if key == BOTTOM_KEY && ValuePrefix(bottom) != [] then ValuePrefix(bottom) else b, key);
  }

  lemma LastOfNone(before: Bytes, key: Bytes)
    ensures LastValue(before, key, []) == before
  {
  }

  // ----- values that replace others -----

  /** A value-class text, an ampersand and a pair: the text is the value, the pair is planted. */
  lemma PlantsPair(value: Bytes, key: Bytes, other: Bytes)
    requires AreValueChars(value) && key != [] && AreWordChars(key) && other != [] && AreValueChars(other)
    ensures var v := value + (['&'] + (key + (['='] + other)));
            ValuePrefix(v) == value && Planted(v) == [Field(key, other)]
  {
    var pair := key + (['='] + other);
    var v := value + (['&'] + pair);
    ValuePrefixIs(value, ['&'] + pair);
    assert v[|value|..] == ['&'] + pair;
    NextMatchSkips(pair);
    SameNextMatch(['&'] + pair, pair);
    FieldsOfPair(key, other);
    assert other + [] == other;
    ValuePrefixIs(other, []);
    assert other[|other|..] == [];
    NoFields();
    assert SkipAmpersands([]) == [];
  }

  lemma PlainPlants(value: Bytes)
    requires AreValueChars(value)
    ensures ValuePrefix(value) == value && Planted(value) == []
  {
    assert value + [] == value;
    ValuePrefixIs(value, []);
    assert value[|value|..] == [];
    NoFields();
    assert SkipAmpersands([]) == [];
  }

  lemma FourFields(image: Bytes, top: Bytes, key: Bytes, other: Bytes, bottom: Bytes)
    requires AreValueChars(image) && AreValueChars(top) && AreValueChars(bottom)
    requires image != [] && top != [] && bottom != []
    requires key != [] && AreWordChars(key) && other != [] && AreValueChars(other)
    ensures FormFieldsOf(image, top + (['&'] + (key + (['='] + other))), bottom) ==
            [Field(IMAGE_KEY, image), Field(TOP_KEY, top), Field(key, other), Field(BOTTOM_KEY, bottom)]
  {
    PlantsPair(top, key, other);
    PlainPlants(image);
    PlainPlants(bottom);
    hide ValuePrefix, Planted;
    assert Own(IMAGE_KEY, image) == [Field(IMAGE_KEY, image)];
    assert Own(BOTTOM_KEY, bottom) == [Field(BOTTOM_KEY, bottom)];
    assert Own(TOP_KEY, top + (['&'] + (key + (['='] + other)))) == [Field(TOP_KEY, top)];
    hide Own;
  }

  /** A caption can replace the template, and itself: the value sent for the top caption is stored
      neither whole nor cut. */
  lemma CaptionReplaces(f: Sent, top: Bytes, key: Bytes, other: Bytes, ext: Extraction)
    requires f.Ok() && Presentable(f.image, top, f.bottom) && AreValueChars(other)
    requires f.top == top + (['&'] + (key + (['='] + other)))
    ensures key == IMAGE_KEY && NamesTemplate(other) ==>
              CheckBody(f.Body(), ext) == Accepted([other, top, f.bottom])
    ensures key == TOP_KEY && other != [] ==>
              CheckBody(f.Body(), ext) == Accepted([f.image, other, f.bottom])
  {
    hide *;
    PresentableIs(f.image, top, f.bottom);
    KeysAreWords();
    if (key == IMAGE_KEY && NamesTemplate(other)) || (key == TOP_KEY && other != []) {
      TemplateIsText(other);
      FormOutcome(f, ext);
      FourFields(f.image, top, key, other, f.bottom);
      LastOfFour(Field(IMAGE_KEY, f.image), Field(TOP_KEY, top), Field(key, other), Field(BOTTOM_KEY, f.bottom));
      if key == IMAGE_KEY {
        Checks(other, top, f.bottom);
      } else {
        Checks(f.image, other, f.bottom);
      }
    }
  }

  lemma TemplateIsText(s: Bytes)
    ensures NamesTemplate(s) ==> s != []
  {
  }

  lemma PresentableIs(image: Bytes, top: Bytes, bottom: Bytes)
    ensures Presentable(image, top, bottom) <==>
            && AreValueChars(image) && NamesTemplate(image)
            && AreValueChars(top) && top != [] && AreValueChars(bottom) && bottom != []
    ensures NamesTemplate(image) ==> image != []
  {
  }

  lemma Checks(image: Bytes, top: Bytes, bottom: Bytes)
    requires NamesTemplate(image)
    requires top != [] && AreValueChars(top) && bottom != [] && AreValueChars(bottom)
    ensures CheckValues(image, top, bottom) == Accepted([image, top, bottom])
  {
    hide NamesTemplate;
    assert IsValueChar(top[0]) && IsValueChar(bottom[0]);
  }

  lemma LastOfFour(a: Field, b: Field, c: Field, d: Field)
    requires a.key == IMAGE_KEY && b.key == TOP_KEY && d.key == BOTTOM_KEY && (c.key == IMAGE_KEY || c.key == TOP_KEY)
    ensures CheckFields([a, b, c, d]) ==
            CheckValues(if c.key == IMAGE_KEY then c.value else a.value, if c.key == TOP_KEY then c.value else b.value,
                        d.value)
  {
    KeysAreWords();
    hide CheckValues;
    forall key: Bytes | key in {IMAGE_KEY, TOP_KEY, BOTTOM_KEY}
      ensures LastValue([], key, [a, b, c, d]) ==
              if d.key == key then d.value else if c.key == key then c.value
              else if b.key == key then b.value else if a.key == key then a.value else []
    {
      hide LastValue;
      var x := if a.key == key then a.value else [];
      var y := if b.key == key then b.value else x;
      var z := if c.key == key then c.value else y;
      assert [a, b, c, d] == [a] + ([b] + ([c] + ([d] + [])));
      LastValueCons([], key, a, [b] + ([c] + ([d] + [])));
      LastValueCons(x, key, b, [c] + ([d] + []));
      LastValueCons(y, key, c, [d] + []);
      LastValueCons(z, key, d, []);
      LastOfNone(if d.key == key then d.value else z, key);
    }
  }
}
