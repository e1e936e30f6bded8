/** The reading of a form body: the whole body is percent-decoded, then scanned for key=value pairs
    by a regular expression, and the three wanted values are checked. */
module FormBody {
  import opened Text
  import opened UriCodec

  /** `\w` in the C locale. */
  predicate IsWordChar(c: Byte) {
    '0' <= c <= '9' || 'a' <= c <= 'z' || 'A' <= c <= 'Z' || c == '_'
  }

  /** `[\w\.\,\?! ]` */
  predicate IsValueChar(c: Byte) {
    IsWordChar(c) || c == '.' || c == ',' || c == '?' || c == '!' || c == ' '
  }

  predicate AreWordChars(s: Bytes) {
    forall i :: 0 <= i < |s| ==> IsWordChar(s[i])
  }

  predicate AreValueChars(s: Bytes) {
    forall i :: 0 <= i < |s| ==> IsValueChar(s[i])
  }

  /** The longest prefix of word characters. */
  function WordPrefix(s: Bytes): Bytes {
    if s != [] && IsWordChar(s[0]) then [s[0]] + WordPrefix(s[1..]) else []
  }

  /** The longest prefix of value characters. */
  function ValuePrefix(s: Bytes): Bytes {
    if s != [] && IsValueChar(s[0]) then [s[0]] + ValuePrefix(s[1..]) else []
  }

  function SkipAmpersands(s: Bytes): (r: Bytes)
    ensures |r| <= |s|
  {
    if s != [] && s[0] == '&' then SkipAmpersands(s[1..]) else s
  }

  lemma {:induction false} WordPrefixIs(w: Bytes, r: Bytes)
    requires AreWordChars(w) && (r != [] ==> !IsWordChar(r[0]))
    ensures WordPrefix(w + r) == w
  {
    if w == [] {
      assert w + r == r;
    } else {
      assert (w + r)[1..] == w[1..] + r;
      WordPrefixIs(w[1..], r);
    }
  }

  lemma {:induction false} WordPrefixSplits(s: Bytes)
    ensures var w := WordPrefix(s);
            |w| <= |s| && s == w + s[|w|..] && AreWordChars(w) && (|w| < |s| ==> !IsWordChar(s[|w|]))
  {
    if s != [] && IsWordChar(s[0]) {
      WordPrefixSplits(s[1..]);
    }
  }

  lemma {:induction false} ValuePrefixIs(v: Bytes, r: Bytes)
    requires AreValueChars(v) && (r != [] ==> !IsValueChar(r[0]))
    ensures ValuePrefix(v + r) == v
  {
    if v == [] {
      assert v + r == r;
    } else {
      assert (v + r)[1..] == v[1..] + r;
      ValuePrefixIs(v[1..], r);
    }
  }

  lemma {:induction false} ValuePrefixSplits(s: Bytes)
    ensures var v := ValuePrefix(s);
            |v| <= |s| && s == v + s[|v|..] && AreValueChars(v) && (|v| < |s| ==> !IsValueChar(s[|v|]))
  {
    if s != [] && IsValueChar(s[0]) {
      ValuePrefixSplits(s[1..]);
    }
  }

  lemma {:induction false} ValuePrefixIsLongest(v: Bytes, r: Bytes)
    requires AreValueChars(v)
    ensures |v| <= |ValuePrefix(v + r)|
  {
    if v != [] {
      assert (v + r)[1..] == v[1..] + r;
      ValuePrefixIsLongest(v[1..], r);
    }
  }

  // ----- the scanner -----

  datatype Field = Field(key: Bytes, value: Bytes)

  /** A match at the front of the text, and the text after it. */
  datatype Match = Match(field: Field, rest: Bytes)

  /** `(\w+)=([\w\.\,\?! ]+)&*` matched at the front of `s`. */
  function MatchHere(s: Bytes): (r: Option<Match>)
    ensures r.Some? ==> |r.value.rest| < |s|
  {
    WordPrefixSplits(s);
    var k := |WordPrefix(s)|;
    if k == 0 || k == |s| || s[k] != '=' then None
    else
      ValuePrefixSplits(s[k + 1..]);
      var v := ValuePrefix(s[k + 1..]);
      if v == [] then None
      else Some(Match(Field(s[..k], v), SkipAmpersands(s[k + 1..][|v|..])))
  }

  /** The leftmost match in `s`. */
  function NextMatch(s: Bytes): (r: Option<Match>)
    ensures r.Some? ==> |r.value.rest| < |s|
  {
    if s == [] then None
    else if MatchHere(s).Some? then MatchHere(s)
    else NextMatch(s[1..])
  }

  /** All matches, each search beginning where the match before it ended. */
  function Fields(s: Bytes): seq<Field>
    decreases |s|
  {
    match NextMatch(s)
    case None => []
    case Some(m) => [m.field] + Fields(m.rest)
  }

  /** `s` begins with a text that the regular expression matches with this key and value. */
  ghost predicate RegexMatches(s: Bytes, key: Bytes, value: Bytes) {
    && key != [] && AreWordChars(key) && value != [] && AreValueChars(value)
    && key + ['='] + value <= s
  }

  lemma MatchIsRegex(s: Bytes)
    requires MatchHere(s).Some?
    ensures RegexMatches(s, MatchHere(s).value.field.key, MatchHere(s).value.field.value)
  {
    MatchIsSplit(s);
    var w, v := MatchHere(s).value.field.key, MatchHere(s).value.field.value;
    var u := s[|w| + 1..];
    hide MatchHere;
    assert s == w + ['='] + u && u == v + u[|v|..];
    assert s == w + ['='] + v + u[|v|..];
  }

  lemma MatchIsSplit(s: Bytes)
    requires MatchHere(s).Some?
    ensures var w, v := MatchHere(s).value.field.key, MatchHere(s).value.field.value;
            && w != [] && AreWordChars(w) && v != [] && AreValueChars(v)
            && |w| < |s| && s[..|w|] == w && s[|w|] == '='
            && v <= s[|w| + 1..]
  {
    WordPrefixSplits(s);
    ValuePrefixSplits(s[|WordPrefix(s)| + 1..]);
    hide WordPrefix, ValuePrefix, IsWordChar, IsValueChar, SkipAmpersands;
  }

  lemma MatchAtPair(key: Bytes, value: Bytes, r: Bytes)
    requires key != [] && AreWordChars(key) && value != [] && AreValueChars(value)
    ensures var m, longest := MatchHere(key + (['='] + (value + r))), ValuePrefix(value + r);
            && |value| <= |longest| <= |value + r|
            && m == Some(Match(Field(key, longest), SkipAmpersands((value + r)[|longest|..])))
  {
    var u := value + r;
    assert !IsWordChar('=');
    WordPrefixIs(key, ['='] + u);
    ValuePrefixIsLongest(value, r);
    ValuePrefixSplits(u);
    hide MatchHere, WordPrefix, ValuePrefix, IsWordChar, IsValueChar, SkipAmpersands;
    MatchOfPrefixes(key, u);
  }

  lemma MatchOfPrefixes(key: Bytes, u: Bytes)
    requires key != [] && WordPrefix(key + (['='] + u)) == key && ValuePrefix(u) != [] && |ValuePrefix(u)| <= |u|
    ensures MatchHere(key + (['='] + u)) ==
            Some(Match(Field(key, ValuePrefix(u)), SkipAmpersands(u[|ValuePrefix(u)|..])))
  {
    hide WordPrefix, ValuePrefix, IsWordChar, IsValueChar, SkipAmpersands;
    var s := key + (['='] + u);
    assert s[|key| + 1..] == u && s[..|key|] == key && s[|key|] == '=';
  }

  lemma RegexIsMatched(s: Bytes, key: Bytes, value: Bytes)
    requires RegexMatches(s, key, value)
    ensures MatchHere(s).Some? && MatchHere(s).value.field.key == key
    ensures |value| <= |MatchHere(s).value.field.value|
  {
    var r := s[|key| + 1 + |value|..];
    assert s == key + (['='] + (value + r));
    hide MatchHere;
    MatchAtPair(key, value, r);
  }

  /** The scanner agrees with the regular expression under every way of backtracking: it finds a match
      exactly when there is one, the key is the only possible one, and the value is the longest. */
  lemma ScannerIsRegex(s: Bytes)
    ensures MatchHere(s).Some? ==>
              RegexMatches(s, MatchHere(s).value.field.key, MatchHere(s).value.field.value)
    ensures forall key: Bytes, value: Bytes | RegexMatches(s, key, value) ::
              && MatchHere(s).Some? && MatchHere(s).value.field.key == key
              && |value| <= |MatchHere(s).value.field.value|
  {
    hide MatchHere, RegexMatches;
    if MatchHere(s).Some? {
      MatchIsRegex(s);
    }
    forall key: Bytes, value: Bytes | RegexMatches(s, key, value)
      ensures MatchHere(s).Some? && MatchHere(s).value.field.key == key
      ensures |value| <= |MatchHere(s).value.field.value|
    {
      RegexIsMatched(s, key, value);
    }
  }

  /** Fields hold non-empty values of value characters. */
  lemma {:induction false} NextMatchIsValue(s: Bytes)
    requires NextMatch(s).Some?
    ensures NextMatch(s).value.field.value != [] && AreValueChars(NextMatch(s).value.field.value)
  {
    if MatchHere(s).Some? {
      WordPrefixSplits(s);
      ValuePrefixSplits(s[|WordPrefix(s)| + 1..]);
    } else {
      NextMatchIsValue(s[1..]);
    }
  }

  // ----- the checks -----

  /** The value of the last field with the key, or the empty string. */
  function LastValue(before: Bytes, key: Bytes, fields: seq<Field>): Bytes
    decreases fields
  {
    if fields == [] then before
    else LastValue(if fields[0].key == key then fields[0].value else before, key, fields[1..])
  }

  /** `regex_search` for `\w+.jpg`. */
  predicate NamesTemplate(s: Bytes) {
    exists j :: 0 < j < |s| - 3 && TemplateAt(s, j)
  }

  /** A word character, any character but a line end, and `jpg` around the position `j`. */
  predicate TemplateAt(s: Bytes, j: int)
    requires 0 < j < |s| - 3
  {
    && IsWordChar(s[j - 1]) && s[j] != '\n' && s[j] != '\r'
    && s[j + 1] == 'j' && s[j + 2] == 'p' && s[j + 3] == 'g'
  }

  /** `regex_search` for a run of value characters. */
  predicate HasValueChar(s: Bytes) {
    exists i :: 0 <= i < |s| && IsValueChar(s[i])
  }

  /** The outcome of checking a body: the decoder threw, the body was refused, or its three values. */
  datatype Checked = Threw | Refused | Accepted(params: seq<Bytes>)

  function CheckValues(image: Bytes, top: Bytes, bottom: Bytes): Checked {
    if NamesTemplate(image) && HasValueChar(top) && HasValueChar(bottom) then Accepted([image, top, bottom])
    else Refused
  }

  const IMAGE_KEY: Bytes := "memeSelect"
  const TOP_KEY: Bytes := "topCaption"
  const BOTTOM_KEY: Bytes := "bottomCaption"

  function CheckFields(fields: seq<Field>): Checked {
    CheckValues(LastValue([], IMAGE_KEY, fields), LastValue([], TOP_KEY, fields), LastValue([], BOTTOM_KEY, fields))
  }

  function CheckBody(body: Bytes, ext: Extraction): Checked {
    match Decode(body, ext)
    case None => Threw
    case Some(text) => CheckFields(Fields(text))
  }

  method BodyCheck(body: Bytes, ext: Extraction) returns (r: Checked)
    ensures r == CheckBody(body, ext)
  {
    var decoded := UriDecode(body, ext);
    if decoded.None? {
      return Threw;
    }
    var image: Bytes, top: Bytes, bottom: Bytes := [], [], [];
    ghost var fields := Fields(decoded.value);
    ghost var rest := decoded.value;
    var iter := NextMatch(decoded.value);
    while iter.Some?
      invariant iter == NextMatch(rest)
      invariant LastValue([], IMAGE_KEY, fields) == LastValue(image, IMAGE_KEY, Fields(rest))
      invariant LastValue([], TOP_KEY, fields) == LastValue(top, TOP_KEY, Fields(rest))
      invariant LastValue([], BOTTOM_KEY, fields) == LastValue(bottom, BOTTOM_KEY, Fields(rest))
      decreases |rest|
    {
      var key, value := iter.value.field.key, iter.value.field.value;
      assert Fields(rest)[1..] == Fields(iter.value.rest);
      if key == IMAGE_KEY {
        image := value;
      } else if key == TOP_KEY {
        top := value;
      } else if key == BOTTOM_KEY {
        bottom := value;
      }
      rest := iter.value.rest;
      iter := NextMatch(iter.value.rest);
    }
    if !NamesTemplate(image) {
      return Refused;
    }
    if !HasValueChar(top) {
      return Refused;
    }
    if !HasValueChar(bottom) {
      return Refused;
    }
    r := Accepted([image, top, bottom]);
  }

  // ----- the round trip -----

  /** A form body with its three values in some encoding. */
  function Form(image: Bytes, top: Bytes, bottom: Bytes): Bytes {
    IMAGE_KEY + ['='] + image + (['&'] + TOP_KEY + ['='] + top + (['&'] + BOTTOM_KEY + ['='] + bottom))
  }

  lemma {:induction false} DecodePlainText(p: Bytes, s: Bytes, ext: Extraction)
    requires forall i :: 0 <= i < |p| ==> p[i] != '%' && p[i] != '+'
    ensures Decode(p + s, ext) == Appended(p, Decode(s, ext))
  {
    if p == [] {
      assert p + s == s;
      AppendedNil(Decode(s, ext));
    } else {
      var c, tail := p[0], p[1..];
      assert p == [c] + tail;
      Concatenation([c], tail, s);
      DecodePlain(c, tail + s, ext);
      DecodePlainText(tail, s, ext);
      PrefixedAppended(c, tail, Decode(s, ext));
    }
  }

  lemma AppendedSome(r: Bytes, t: Bytes)
    ensures Appended(r, Some(t)) == Some(r + t)
  {
  }

  /** One encoded pair and what follows it. */
  lemma DecodePair(key: Bytes, e: Bytes, value: Bytes, s: Bytes, plain: Bytes, ext: Extraction)
    requires forall i :: 0 <= i < |key| ==> key[i] != '%' && key[i] != '+'
    requires Encodes(e, value) && Decode(s, ext) == Some(plain)
    ensures Decode(key + ['='] + e + s, ext) == Some(key + ['='] + value + plain)
  {
    hide *;
    var k := key + ['='];
    assert k + e + s == k + (e + s);
    DecodePlainText(k, e + s, ext);
    DecodeEncoded(e, value, s, ext);
    AppendedSome(value, plain);
    AppendedSome(k, value + plain);
    assert k + (value + plain) == k + value + plain;
  }

  /** Three values, each with an encoding of it. */
  datatype Sent = Sent(image: Bytes, imageText: Bytes, top: Bytes, topText: Bytes, bottom: Bytes, bottomText: Bytes) {
    predicate Ok() {
      Encodes(imageText, image) && Encodes(topText, top) && Encodes(bottomText, bottom)
    }

    function Body(): Bytes {
      Form(imageText, topText, bottomText)
    }
  }

  lemma DecodeForm(f: Sent, ext: Extraction)
    requires f.Ok()
    ensures Decode(f.Body(), ext) == Some(Form(f.image, f.top, f.bottom))
  {
    hide Decode, Encodes;
    var last := ['&'] + BOTTOM_KEY + ['='] + f.bottomText;
    var plainLast := ['&'] + BOTTOM_KEY + ['='] + f.bottom;
    assert Decode([], ext) == Some([]) by {
      UriRoundTrip([], ext);
      EncodedShape([]);
    }
    DecodePair(['&'] + BOTTOM_KEY, f.bottomText, f.bottom, [], [], ext);
    assert last + [] == last && plainLast + [] == plainLast;
    var middle := ['&'] + TOP_KEY + ['='] + f.topText + last;
    DecodePair(['&'] + TOP_KEY, f.topText, f.top, last, plainLast, ext);
    DecodePair(IMAGE_KEY, f.imageText, f.image, middle, ['&'] + TOP_KEY + ['='] + f.top + plainLast, ext);
  }

  lemma FieldsStep(s: Bytes)
    requires MatchHere(s).Some?
    ensures Fields(s) == [MatchHere(s).value.field] + Fields(MatchHere(s).value.rest)
  {
    assert NextMatch(s) == MatchHere(s);
  }

  lemma MatchPair(key: Bytes, value: Bytes, s: Bytes)
    requires key != [] && AreWordChars(key) && value != [] && AreValueChars(value)
    requires s != [] ==> s[0] == '&'
    ensures Fields(key + ['='] + value + s) == [Field(key, value)] + Fields(SkipAmpersands(s))
  {
    ValuePrefixIs(value, s);
    hide *;
    Concatenation(key, ['='], value + s);
    Concatenation(key + ['='], value, s);
    assert (value + s)[|value|..] == s;
    MatchAtPair(key, value, s);
    FieldsStep(key + (['='] + (value + s)));
  }

  lemma SkipOne(s: Bytes)
    requires s == [] || s[0] != '&'
    ensures SkipAmpersands(['&'] + s) == s
  {
    assert (['&'] + s)[1..] == s;
  }

  lemma FieldsOfForm(image: Bytes, top: Bytes, bottom: Bytes)
    requires image != [] && AreValueChars(image)
    requires top != [] && AreValueChars(top) && bottom != [] && AreValueChars(bottom)
    ensures Fields(Form(image, top, bottom)) ==
            [Field(IMAGE_KEY, image), Field(TOP_KEY, top), Field(BOTTOM_KEY, bottom)]
  {
    hide Fields, SkipAmpersands;
    var last := BOTTOM_KEY + ['='] + bottom;
    var middle := TOP_KEY + ['='] + top + (['&'] + last);
    assert last + [] == last;
    MatchPair(BOTTOM_KEY, bottom, []);
    NoFields();
    MatchPair(TOP_KEY, top, ['&'] + last);
    SkipOne(last);
    MatchPair(IMAGE_KEY, image, ['&'] + middle);
    SkipOne(middle);
    assert ['&'] + BOTTOM_KEY + ['='] + bottom == ['&'] + last;
    assert ['&'] + TOP_KEY + ['='] + top + (['&'] + last) == ['&'] + middle;
  }

  lemma NoFields()
    ensures Fields(SkipAmpersands([])) == []
  {
  }

  /** The last value is the initial one or the value of a field. */
  lemma {:induction false} LastValueIsValue(s: Bytes, before: Bytes, key: Bytes)
    requires AreValueChars(before)
    ensures AreValueChars(LastValue(before, key, Fields(s)))
    decreases |s|
  {
    if NextMatch(s).Some? {
      var m := NextMatch(s).value;
      NextMatchIsValue(s);
      assert Fields(s)[1..] == Fields(m.rest);
      LastValueIsValue(m.rest, if m.field.key == key then m.field.value else before, key);
    }
  }

  predicate Presentable(image: Bytes, top: Bytes, bottom: Bytes) {
    && AreValueChars(image) && NamesTemplate(image)
    && AreValueChars(top) && top != [] && AreValueChars(bottom) && bottom != []
  }

  /** Whatever is accepted consists of value characters, names a template and has two captions. */
  lemma AcceptedValues(body: Bytes, ext: Extraction)
    requires CheckBody(body, ext).Accepted?
    ensures var p := CheckBody(body, ext).params;
            |p| == 3 && Presentable(p[0], p[1], p[2])
  {
    var fields := Fields(Decode(body, ext).value);
    LastValueIsValue(Decode(body, ext).value, [], IMAGE_KEY);
    LastValueIsValue(Decode(body, ext).value, [], TOP_KEY);
    LastValueIsValue(Decode(body, ext).value, [], BOTTOM_KEY);
    hide Fields, LastValue, Decode;
    assert CheckBody(body, ext) == CheckFields(fields);
  }

  lemma LastValueCons(before: Bytes, key: Bytes, f: Field, fields: seq<Field>)
    ensures LastValue(before, key, [f] + fields) ==
            LastValue(if f.key == key then f.value else before, key, fields)
  {
    assert ([f] + fields)[1..] == fields;
  }

  lemma LastOfThree(f: Field, g: Field, h: Field, key: Bytes)
    requires f.key != g.key && g.key != h.key && h.key != f.key
    ensures f.key == key ==> LastValue([], key, [f, g, h]) == f.value
    ensures g.key == key ==> LastValue([], key, [f, g, h]) == g.value
    ensures h.key == key ==> LastValue([], key, [f, g, h]) == h.value
  {
    assert [f, g, h] == [f] + ([g] + ([h] + []));
    var x := if f.key == key then f.value else [];
    var y := if g.key == key then g.value else x;
    LastValueCons([], key, f, [g] + ([h] + []));
    LastValueCons(x, key, g, [h] + []);
    LastValueCons(y, key, h, []);
  }

  lemma CheckThree(image: Bytes, top: Bytes, bottom: Bytes)
    ensures CheckFields([Field(IMAGE_KEY, image), Field(TOP_KEY, top), Field(BOTTOM_KEY, bottom)]) ==
            CheckValues(image, top, bottom)
  {
    var f, g, h := Field(IMAGE_KEY, image), Field(TOP_KEY, top), Field(BOTTOM_KEY, bottom);
    assert IMAGE_KEY[0] != TOP_KEY[0] && IMAGE_KEY[0] != BOTTOM_KEY[0] && TOP_KEY[0] != BOTTOM_KEY[0];
    hide LastValue, CheckValues;
    LastOfThree(f, g, h, IMAGE_KEY);
    LastOfThree(f, g, h, TOP_KEY);
    LastOfThree(f, g, h, BOTTOM_KEY);
  }

  lemma PresentableIsAccepted(f: Sent, ext: Extraction)
    requires f.Ok() && Presentable(f.image, f.top, f.bottom)
    ensures CheckBody(f.Body(), ext) == Accepted([f.image, f.top, f.bottom])
  {
    assert IsValueChar(f.top[0]) && IsValueChar(f.bottom[0]);
    assert CheckValues(f.image, f.top, f.bottom) == Accepted([f.image, f.top, f.bottom]);
    DecodeForm(f, ext);
    FieldsOfForm(f.image, f.top, f.bottom);
    CheckThree(f.image, f.top, f.bottom);
    hide Form, Decode, Fields, CheckFields, CheckValues, Encodes;
  }

  lemma AcceptedIsPresentable(body: Bytes, image: Bytes, top: Bytes, bottom: Bytes, ext: Extraction)
    requires CheckBody(body, ext) == Accepted([image, top, bottom])
    ensures Presentable(image, top, bottom)
  {
    hide *;
    var p := [image, top, bottom];
    assert p[0] == image && p[1] == top && p[2] == bottom;
    AcceptedValues(body, ext);
  }

  /** Main result: a form whose three values are sent in any percent-encoding is accepted with exactly
      these values if and only if they are made of value characters, the first names a template and
      the captions are not empty. In particular a caption with any other character is never stored as
      sent. */
  lemma FormRoundTripIff(f: Sent, ext: Extraction)
    requires f.Ok()
    ensures CheckBody(f.Body(), ext) == Accepted([f.image, f.top, f.bottom])
            <==> Presentable(f.image, f.top, f.bottom)
  {
    hide *;
    if Presentable(f.image, f.top, f.bottom) {
      PresentableIsAccepted(f, ext);
    }
    if CheckBody(f.Body(), ext) == Accepted([f.image, f.top, f.bottom]) {
      AcceptedIsPresentable(f.Body(), f.image, f.top, f.bottom, ext);
    }
  }

  /** So it is for the bodies that the web pages send, and for values encoded by the server's own
      encoder. */
  lemma ClientFormsIff(image: Bytes, top: Bytes, bottom: Bytes, ext: Extraction)
    ensures CheckBody(Form(Serialize(image), Serialize(top), Serialize(bottom)), ext) == Accepted([image, top, bottom])
            <==> Presentable(image, top, bottom)
    ensures CheckBody(Form(Encode(image), Encode(top), Encode(bottom)), ext) == Accepted([image, top, bottom])
            <==> Presentable(image, top, bottom)
  {
    SerializeEncodes(image);
    SerializeEncodes(top);
    SerializeEncodes(bottom);
    EncodeEncodes(image);
    EncodeEncodes(top);
    EncodeEncodes(bottom);
    hide CheckBody, Presentable, Encodes, Form, Serialize, Encode;
    FormRoundTripIff(Sent(image, Serialize(image), top, Serialize(top), bottom, Serialize(bottom)), ext);
    FormRoundTripIff(Sent(image, Encode(image), top, Encode(top), bottom, Encode(bottom)), ext);
  }
}
