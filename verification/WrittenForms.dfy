/** Which forms are stored as they were sent, with the characters, the keys and the pages' encoding
    written out. */
module WrittenForms {
  import opened UriCodec
  import opened FormBody

  /** Letters, digits and the underscore. */
  predicate Letter(c: Byte) {
    'a' <= c <= 'z' || 'A' <= c <= 'Z' || '0' <= c <= '9' || c == '_'
  }

  predicate WordOnly(s: Bytes) {
    forall i :: 0 <= i < |s| ==> Letter(s[i])
  }

  /** Letters, full stops, commas, question and exclamation marks, and spaces. */
  predicate CaptionOnly(s: Bytes) {
    forall i :: 0 <= i < |s| ==>
      Letter(s[i]) || s[i] == '.' || s[i] == ',' || s[i] == '?' || s[i] == '!' || s[i] == ' '
  }

  /** A letter, any one character on the same line, and `jpg` follow one another: the full stop in the
      server's expression is not escaped. */
  predicate JpgAt(s: Bytes, i: int) {
    && 0 <= i < |s| - 4 && Letter(s[i]) && s[i + 1] != '\n' && s[i + 1] != '\r'
    && s[i + 2] == 'j' && s[i + 3] == 'p' && s[i + 4] == 'g'
  }

  predicate HasJpg(s: Bytes) {
    exists i :: 0 <= i < |s| - 4 && JpgAt(s, i)
  }

  lemma LetterIff(c: Byte)
    ensures Letter(c) <==> IsWordChar(c)
  {
  }

  lemma CaptionOnlyIff(s: Bytes)
    ensures CaptionOnly(s) <==> AreValueChars(s)
  {
    forall i | 0 <= i < |s|
      ensures IsValueChar(s[i]) <==>
              Letter(s[i]) || s[i] == '.' || s[i] == ',' || s[i] == '?' || s[i] == '!' || s[i] == ' '
    {
      LetterIff(s[i]);
    }
    hide Letter, IsValueChar;
  }

  lemma HasJpgIff(s: Bytes)
    ensures HasJpg(s) <==> NamesTemplate(s)
  {
    if i :| 0 <= i < |s| - 4 && JpgAt(s, i) {
      LetterIff(s[i]);
      assert TemplateAt(s, i + 1);
    }
    if j :| 0 < j < |s| - 3 && TemplateAt(s, j) {
      LetterIff(s[j - 1]);
      assert JpgAt(s, j - 1);
    }
  }

  lemma PresentableIff(image: Bytes, top: Bytes, bottom: Bytes)
    ensures Presentable(image, top, bottom) <==>
            && CaptionOnly(image) && HasJpg(image)
            && top != [] && CaptionOnly(top) && bottom != [] && CaptionOnly(bottom)
  {
    CaptionOnlyIff(image);
    HasJpgIff(image);
    CaptionOnlyIff(top);
    CaptionOnlyIff(bottom);
    hide CaptionOnly, AreValueChars, HasJpg, NamesTemplate;
  }

  /** A body with its three fields in the order in which the pages have them. */
  function Body(image: Bytes, top: Bytes, bottom: Bytes): Bytes {
    "memeSelect=" + image + ("&topCaption=" + top + ("&bottomCaption=" + bottom))
  }

  lemma BodyIsForm(image: Bytes, top: Bytes, bottom: Bytes)
    ensures Body(image, top, bottom) == Form(image, top, bottom)
  {
    assert IMAGE_KEY + ['='] == "memeSelect=";
    assert ['&'] + TOP_KEY + ['='] == "&topCaption=";
    assert ['&'] + BOTTOM_KEY + ['='] == "&bottomCaption=";
  }

  /** Main result: a form sent by the pages is stored as it is if and only if its template and captions
      are made of the listed characters, the captions are not empty, and the template has a `jpg` in it
      as described. The same holds for every other percent-encoding of the three values. */
  lemma StoredAsSentIff(f: Sent, ext: Extraction)
    requires f.Ok()
    ensures CheckBody(Body(f.imageText, f.topText, f.bottomText), ext) == Accepted([f.image, f.top, f.bottom]) <==>
            && CaptionOnly(f.image) && HasJpg(f.image)
            && f.top != [] && CaptionOnly(f.top) && f.bottom != [] && CaptionOnly(f.bottom)
    ensures CheckBody(Body(Serialize(f.image), Serialize(f.top), Serialize(f.bottom)), ext) ==
            Accepted([f.image, f.top, f.bottom]) <==>
            && CaptionOnly(f.image) && HasJpg(f.image)
            && f.top != [] && CaptionOnly(f.top) && f.bottom != [] && CaptionOnly(f.bottom)
  {
    hide *;
    BodyIsForm(f.imageText, f.topText, f.bottomText);
    BodyIsForm(Serialize(f.image), Serialize(f.top), Serialize(f.bottom));
    SentBody(f);
    FormRoundTripIff(f, ext);
    ClientFormsIff(f.image, f.top, f.bottom, ext);
    PresentableIff(f.image, f.top, f.bottom);
  }

  lemma SentBody(f: Sent)
    ensures f.Body() == Form(f.imageText, f.topText, f.bottomText)
  {
  }

  /** Whatever the body, only such values are ever accepted. */
  lemma AcceptedIsWritten(body: Bytes, ext: Extraction)
    requires CheckBody(body, ext).Accepted?
    ensures var p := CheckBody(body, ext).params;
            && |p| == 3 && CaptionOnly(p[0]) && HasJpg(p[0])
            && p[1] != [] && CaptionOnly(p[1]) && p[2] != [] && CaptionOnly(p[2])
  {
    hide *;
    AcceptedValues(body, ext);
    var p := CheckBody(body, ext).params;
    PresentableIff(p[0], p[1], p[2]);
  }

  /** A name of letters with `.jpg` behind it is a template. */
  lemma JpgNames(name: Bytes)
    requires name != [] && WordOnly(name)
    ensures CaptionOnly(name + ".jpg") && HasJpg(name + ".jpg")
  {
    var s: Bytes := name + ".jpg";
    assert Letter('j') && Letter('p') && Letter('g');
    hide Letter;
    assert JpgAt(s, |name| - 1);
  }

  /** The pages send letters as they are and each space as a plus sign. */
  lemma {:induction false} WordsAreSent(s: Bytes, words: Bytes)
    requires |words| == |s|
    requires forall i :: 0 <= i < |s| ==> if s[i] == ' ' then words[i] == '+' else words[i] == s[i] && Letter(s[i])
    ensures Serialize(s) == words && Encodes(words, s)
    decreases |s|
  {
    if s != [] {
      WordsAreSent(s[1..], words[1..]);
      assert words == [words[0]] + words[1..];
      assert SerializeByte(s[0]) == [words[0]];
    }
  }

  /** So two words with a plus sign between them are what the pages send for the words with a space
      between them, and are stored with the space. */
  lemma TwoWordsAreStored(name: Bytes, a: Bytes, b: Bytes, bottom: Bytes, ext: Extraction)
    requires name != [] && WordOnly(name) && WordOnly(a) && WordOnly(b) && bottom != [] && WordOnly(bottom)
    ensures Serialize(a + [' '] + b) == a + ['+'] + b
    ensures CheckBody(Body(Serialize(name + ".jpg"), a + ['+'] + b, bottom), ext) ==
            Accepted([name + ".jpg", a + [' '] + b, bottom])
  {
    assert !Letter(' ');
    hide Letter, CheckBody, HasJpg, Serialize, Encodes, Body;
    JpgNames(name);
    WordsAreSent(a + [' '] + b, a + ['+'] + b);
    WordsAreSent(bottom, bottom);
    var image: Bytes := name + ".jpg";
    StoredAsSentIff(Sent(image, Encode(image), a + [' '] + b, a + ['+'] + b, bottom, bottom), ext) by {
      EncodeEncodes(image);
    }
  }
}
