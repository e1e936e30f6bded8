/** Reading JSON arrays and objects of strings, RFC 8259 sections 2, 4, 5 and 7, and splitting a string
    as JavaScript's `split` does. The escape `\u` is not read by this parser. */
module JsonStrings {
  import opened Text

  datatype Read<T> = Read(value: T, rest: string)

  function Escaped(c: char): Option<char> {
    if c == '"' || c == '\\' || c == '/' then Some(c)
    else if c == 'b' then Some('\U{08}')
    else if c == 'f' then Some('\U{0c}')
    else if c == 'n' then Some('\n')
    else if c == 'r' then Some('\r')
    else if c == 't' then Some('\t')
    else None
  }

  function Prepended(c: char, r: Option<Read<string>>): Option<Read<string>> {
    if r.None? then None else Some(Read([c] + r.value.value, r.value.rest))
  }

  /** The rest of a string whose opening quotation mark has been read. */
  function ReadString(s: string): (r: Option<Read<string>>)
    ensures r.Some? ==> |r.value.rest| < |s|
    decreases |s|
  {
    if s == "" then None
    else if s[0] == '"' then Some(Read("", s[1..]))
    else if s[0] == '\\' then
      if |s| < 2 || Escaped(s[1]).None? then None else Prepended(Escaped(s[1]).value, ReadString(s[2..]))
    else if s[0] < ' ' then None
    else Prepended(s[0], ReadString(s[1..]))
  }

  /** One or more strings separated by commas, the closing bracket, and nothing but blanks after it. */
  function ReadItems(s: string): Option<seq<string>>
    decreases |s|
  {
    if s == "" || s[0] != '"' || ReadString(s[1..]).None? then None
    else
      var item := ReadString(s[1..]).value;
      var rest := SkipBlanks(item.rest);
      if rest == "" then None
      else if rest[0] == ']' then if SkipBlanks(rest[1..]) == "" then Some([item.value]) else None
      else if rest[0] != ',' || ReadItems(SkipBlanks(rest[1..])).None? then None
      else Some([item.value] + ReadItems(SkipBlanks(rest[1..])).value)
  }

  /** The strings of a JSON array of strings; None when the text is not one. */
  function ReadArray(text: string): Option<seq<string>> {
    var s := SkipBlanks(text);
    if s == "" || s[0] != '[' then None
    else
      var inside := SkipBlanks(s[1..]);
      if inside != "" && inside[0] == ']' then if SkipBlanks(inside[1..]) == "" then Some([]) else None
      else ReadItems(inside)
  }

  // ----- writing an array without escapes -----

  /** No character that a JSON string must escape. */
  predicate NeedsNoEscape(s: string) {
    forall i :: 0 <= i < |s| ==> s[i] >= ' ' && s[i] != '"' && s[i] != '\\'
  }

  function Quoted(s: string): string {
    ['"'] + s + ['"']
  }

  function Commas(items: seq<string>): string {
    if items == [] then ""
    else if |items| == 1 then Quoted(items[0])
    else Quoted(items[0]) + "," + Commas(items[1..])
  }

  function ArrayText(items: seq<string>): string {
    "[" + Commas(items) + "]"
  }

  lemma CommasCons(item: string, items: seq<string>)
    ensures Commas([item] + items) == if items == [] then Quoted(item) else Quoted(item) + ("," + Commas(items))
  {
    hide Quoted;
    assert ([item] + items)[1..] == items;
    Concatenation(Quoted(item), ",", Commas(items));
  }

  lemma {:induction false} CommasSnoc(items: seq<string>, item: string)
    requires items != []
    ensures Commas(items + [item]) == Commas(items) + ("," + Quoted(item))
  {
    hide Quoted, Commas;
    var tail := items[1..];
    assert items == [items[0]] + tail;
    assert items + [item] == [items[0]] + (tail + [item]);
    CommasCons(items[0], tail + [item]);
    CommasCons(items[0], tail);
    if tail == [] {
      assert tail + [item] == [item] + [];
      CommasCons(item, []);
    } else {
      CommasSnoc(tail, item);
      Concatenation(Quoted(items[0]), "," + Commas(tail), "," + Quoted(item));
      Concatenation(",", Commas(tail), "," + Quoted(item));
    }
  }

  lemma {:induction false} ReadPlain(s: string, r: string)
    requires NeedsNoEscape(s)
    ensures ReadString(s + (['"'] + r)) == Some(Read(s, r))
  {
    if s == "" {
      assert s + (['"'] + r) == ['"'] + r;
      assert (['"'] + r)[1..] == r;
    } else {
      assert (s + (['"'] + r))[1..] == s[1..] + (['"'] + r);
      ReadPlain(s[1..], r);
      assert [s[0]] + s[1..] == s;
    }
  }

  lemma ReadQuoted(s: string, r: string)
    requires NeedsNoEscape(s)
    ensures (Quoted(s) + r)[0] == '"' && ReadString((Quoted(s) + r)[1..]) == Some(Read(s, r))
  {
    ReadPlain(s, r);
    assert (Quoted(s) + r)[1..] == s + (['"'] + r);
  }

  lemma ReadLastItem(item: string)
    requires NeedsNoEscape(item)
    ensures ReadItems(Quoted(item) + "]") == Some([item])
  {
    hide ReadString, NeedsNoEscape, Quoted;
    ReadQuoted(item, "]");
  }

  lemma ReadNextItem(item: string, tail: string)
    requires NeedsNoEscape(item) && tail != "" && tail[0] == '"' && ReadItems(tail).Some?
    ensures ReadItems(Quoted(item) + ("," + tail)) == Some([item] + ReadItems(tail).value)
  {
    hide ReadString, NeedsNoEscape, Quoted;
    ReadQuoted(item, "," + tail);
    assert ("," + tail)[1..] == tail;
    assert SkipBlanks(tail) == tail;
  }

  lemma {:induction false} ReadCommas(items: seq<string>)
    requires items != [] && forall i :: 0 <= i < |items| ==> NeedsNoEscape(items[i])
    ensures ReadItems(Commas(items) + "]") == Some(items)
  {
    hide *;
    var tail := items[1..];
    assert items == [items[0]] + tail;
    CommasCons(items[0], tail);
    if tail == [] {
      ReadLastItem(items[0]);
      assert items == [items[0]];
    } else {
      ReadCommas(tail);
      CommasStart(tail);
      Concatenation(Quoted(items[0]), "," + Commas(tail), "]");
      Concatenation(",", Commas(tail), "]");
      ReadNextItem(items[0], Commas(tail) + "]");
    }
  }

  lemma CommasStart(items: seq<string>)
    requires items != []
    ensures Commas(items) != "" && Commas(items)[0] == '"'
  {
  }

  /** Strings without characters to escape, quoted and joined by commas between brackets, are a JSON
      array of those strings. */
  lemma ReadArrayText(items: seq<string>)
    requires forall i :: 0 <= i < |items| ==> NeedsNoEscape(items[i])
    ensures ReadArray(ArrayText(items)) == Some(items)
  {
    var text := ArrayText(items);
    assert text[1..] == Commas(items) + "]";
    if items == [] {
      assert text[1..] == "]";
    } else {
      ReadCommas(items);
      CommasStart(items);
      assert SkipBlanks(text[1..]) == text[1..];
    }
  }

  // ----- objects -----

  datatype Member = Member(name: string, value: string)

  /** One or more members separated by commas, the closing brace, and nothing but blanks after it. */
  function ReadMembers(s: string): Option<seq<Member>>
    decreases |s|
  {
    if s == "" || s[0] != '"' || ReadString(s[1..]).None? then None
    else
      var name := ReadString(s[1..]).value;
      var colon := SkipBlanks(name.rest);
      if colon == "" || colon[0] != ':' then None
      else
        var t := SkipBlanks(colon[1..]);
        if t == "" || t[0] != '"' || ReadString(t[1..]).None? then None
        else
          var value := ReadString(t[1..]).value;
          var rest := SkipBlanks(value.rest);
          var m := Member(name.value, value.value);
          if rest == "" then None
          else if rest[0] == '}' then if SkipBlanks(rest[1..]) == "" then Some([m]) else None
          else if rest[0] != ',' || ReadMembers(SkipBlanks(rest[1..])).None? then None
          else Some([m] + ReadMembers(SkipBlanks(rest[1..])).value)
  }

  /** The members of a JSON object whose values are strings; None when the text is not one. */
  function ReadObject(text: string): Option<seq<Member>> {
    var s := SkipBlanks(text);
    if s == "" || s[0] != '{' then None
    else
      var inside := SkipBlanks(s[1..]);
      if inside != "" && inside[0] == '}' then if SkipBlanks(inside[1..]) == "" then Some([]) else None
      else ReadMembers(inside)
  }

  function MemberText(m: Member): string {
    Quoted(m.name) + ": " + Quoted(m.value)
  }

  function MembersText(ms: seq<Member>): string {
    if ms == [] then "" else MemberText(ms[0]) + (if |ms| > 1 then ", " else "") + MembersText(ms[1..])
  }

  function ObjectText(ms: seq<Member>): string {
    "{" + MembersText(ms) + "}"
  }

  lemma ReadOneMember(m: Member, r: string)
    requires NeedsNoEscape(m.name) && NeedsNoEscape(m.value)
    ensures var s := MemberText(m) + r;
            && s[0] == '"' && ReadString(s[1..]) == Some(Read(m.name, ": " + Quoted(m.value) + r))
            && SkipBlanks(": " + Quoted(m.value) + r) == ": " + Quoted(m.value) + r
            && SkipBlanks((": " + Quoted(m.value) + r)[1..]) == Quoted(m.value) + r
            && (Quoted(m.value) + r)[0] == '"' && ReadString((Quoted(m.value) + r)[1..]) == Some(Read(m.value, r))
  {
    hide ReadString, NeedsNoEscape;
    var tail := ": " + Quoted(m.value) + r;
    assert MemberText(m) + r == Quoted(m.name) + tail;
    ReadQuoted(m.name, tail);
    ReadQuoted(m.value, r);
    var t := tail[1..];
    assert t[0] == ' ' && t[1..] == Quoted(m.value) + r;
    assert SkipBlanks(t) == SkipBlanks(t[1..]);
  }

  lemma MembersCons(m: Member, tail: seq<Member>)
    ensures MembersText([m] + tail) ==
            if tail == [] then MemberText(m) else MemberText(m) + (", " + MembersText(tail))
  {
    hide MemberText;
    assert ([m] + tail)[1..] == tail;
    if tail == [] {
      assert MemberText(m) + "" + "" == MemberText(m);
    } else {
      Concatenation(MemberText(m), ", ", MembersText(tail));
    }
  }

  lemma ReadLastMember(m: Member)
    requires NeedsNoEscape(m.name) && NeedsNoEscape(m.value)
    ensures ReadMembers(MemberText(m) + "}") == Some([m])
  {
    ReadOneMember(m, "}");
    hide ReadString, NeedsNoEscape, Quoted, MemberText;
  }

  lemma SkipComma(more: string)
    requires more != "" && more[0] == '"'
    ensures var t := ", " + more;
            t[0] == ',' && SkipBlanks(t) == t && SkipBlanks(t[1..]) == more
  {
    var t := (", " + more)[1..];
    assert t == [' '] + more && t[1..] == more;
    assert SkipBlanks(more) == more;
  }

  lemma ReadNextMember(m: Member, more: string)
    requires NeedsNoEscape(m.name) && NeedsNoEscape(m.value)
    requires more != "" && more[0] == '"' && ReadMembers(more).Some?
    ensures ReadMembers(MemberText(m) + (", " + more)) == Some([m] + ReadMembers(more).value)
  {
    hide ReadString, NeedsNoEscape, Quoted, MemberText, SkipBlanks;
    ReadOneMember(m, ", " + more);
    SkipComma(more);
  }

  lemma MembersStart(ms: seq<Member>)
    requires ms != []
    ensures MembersText(ms) != "" && MembersText(ms)[0] == '"'
  {
  }

  lemma {:induction false} ReadTheMembers(ms: seq<Member>)
    requires ms != [] && forall i :: 0 <= i < |ms| ==> NeedsNoEscape(ms[i].name) && NeedsNoEscape(ms[i].value)
    ensures ReadMembers(MembersText(ms) + "}") == Some(ms)
  {
    hide *;
    var m, tail := ms[0], ms[1..];
    assert ms == [m] + tail;
    MembersCons(m, tail);
    if tail == [] {
      ReadLastMember(m);
      assert ms == [m];
    } else {
      ReadTheMembers(tail);
      MembersStart(tail);
      Concatenation(MemberText(m), ", " + MembersText(tail), "}");
      Concatenation(", ", MembersText(tail), "}");
      ReadNextMember(m, MembersText(tail) + "}");
    }
  }

  /** Strings without characters to escape, written as members between braces, are a JSON object with
      exactly those members. */
  lemma ReadObjectText(ms: seq<Member>)
    requires forall i :: 0 <= i < |ms| ==> NeedsNoEscape(ms[i].name) && NeedsNoEscape(ms[i].value)
    ensures ReadObject(ObjectText(ms)) == Some(ms)
  {
    var text := ObjectText(ms);
    assert text[1..] == MembersText(ms) + "}";
    if ms == [] {
      assert text[1..] == "}";
    } else {
      hide ReadMembers, NeedsNoEscape, MembersText;
      ReadTheMembers(ms);
      MembersStart(ms);
      assert text[1..][0] == '"';
      assert SkipBlanks(text[1..]) == text[1..];
    }
  }

  // ----- splitting -----

  /** `s.split(c)` for a one-character separator. */
  function SplitOn(s: string, c: char): (r: seq<string>)
    ensures r != []
  {
    if s == "" then [""]
    else if s[0] == c then [""] + SplitOn(s[1..], c)
    else
      var r := SplitOn(s[1..], c);
      [[s[0]] + r[0]] + r[1..]
  }

  lemma {:induction false} SplitFirst(a: string, c: char, r: string)
    requires c !in a
    ensures SplitOn(a + ([c] + r), c) == [a] + SplitOn(r, c)
  {
    var s := a + ([c] + r);
    if a == "" {
      assert s == [c] + r && s[1..] == r;
    } else {
      assert s[1..] == a[1..] + ([c] + r);
      SplitFirst(a[1..], c, r);
      assert ([a[1..]] + SplitOn(r, c))[1..] == SplitOn(r, c);
      assert [a[0]] + a[1..] == a;
    }
  }

  lemma {:induction false} SplitLast(a: string, c: char)
    requires c !in a
    ensures SplitOn(a, c) == [a]
  {
    if a != "" {
      SplitLast(a[1..], c);
      assert [a[0]] + a[1..] == a;
    }
  }
}
