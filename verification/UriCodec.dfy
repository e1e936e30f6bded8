/** Percent-encoding of byte strings. A byte string is a string of characters below 256. */
module UriCodec {
  import opened Text

  type Byte = c: char | c as int < 256
  type Bytes = seq<Byte>

  /** The value of a byte held in a C++ `char`, which is signed. */
  function SignedChar(c: Byte): (t: int)
    ensures -128 <= t < 128
  {
    if c as int < 128 then c as int else c as int - 256
  }

  /** What is passed through unencoded: hyphen, digits, letters, underscore and tilde. */
  predicate Unreserved(c: Byte) {
    var t := SignedChar(c);
    t == 45 || 48 <= t <= 57 || 65 <= t <= 90 || t == 95 || 97 <= t <= 122 || t == 126
  }

  predicate IsHexDigit(c: char) {
    '0' <= c <= '9' || 'a' <= c <= 'f' || 'A' <= c <= 'F'
  }

  function HexValue(c: char): (v: nat)
    requires IsHexDigit(c)
    ensures v < 16
  {
    if '0' <= c <= '9' then c as int - '0' as int
    else if 'a' <= c <= 'f' then c as int - 'a' as int + 10
    else c as int - 'A' as int + 10
  }

  /** The lower-case digits that `std::hex` writes. */
  function HexDigit(v: nat): (c: Byte)
    requires v < 16
    ensures IsHexDigit(c) && HexValue(c) == v
  {
    if v < 10 then ('0' as int + v) as char else ('a' as int + v - 10) as char
  }

  function CharToHex(c: Byte): (r: Bytes)
    ensures |r| == 3 && r[0] == '%' && IsHexDigit(r[1]) && IsHexDigit(r[2])
    ensures HexValue(r[1]) * 16 + HexValue(r[2]) == c as int
  {
    ['%', HexDigit(c as int / 16), HexDigit(c as int % 16)]
  }

  /** What the stream extraction makes of a string that is not made of hex digits only: a value
      truncated to a byte, or None for the exception. It is a parameter of decoding. */
  type Extraction = Bytes -> Option<Byte>

  /** The byte that the text after a percent sign denotes; it may be shorter than two characters at
      the end of the input. */
  function HexToChar(s: Bytes, ext: Extraction): Option<Byte>
    requires |s| <= 2
  {
    if s == [] then Some('\0')
    else if |s| == 1 && IsHexDigit(s[0]) then Some(HexValue(s[0]) as char)
    else if |s| == 2 && IsHexDigit(s[0]) && IsHexDigit(s[1]) then
      Some((HexValue(s[0]) * 16 + HexValue(s[1])) as char)
    else ext(s)
  }

  // ----- encoding and decoding as functions -----

  function EncodeByte(c: Byte): Bytes {
    if Unreserved(c) then [c] else CharToHex(c)
  }

  function Encode(s: Bytes): Bytes {
    if s == [] then [] else EncodeByte(s[0]) + Encode(s[1..])
  }

  /** The decoded string, or None when an extraction throws. */
  function Decode(s: Bytes, ext: Extraction): Option<Bytes>
    decreases |s|
  {
    if s == [] then Some([])
    else if s[0] == '%' then
      var n := if |s| < 3 then |s| else 3;
      match HexToChar(s[1..n], ext)
      case None => None
      case Some(c) => Prefixed(c, Decode(s[n..], ext))
    else if s[0] == '+' then Prefixed(' ', Decode(s[1..], ext))
    else Prefixed(s[0], Decode(s[1..], ext))
  }

  function Prefixed(c: Byte, s: Option<Bytes>): Option<Bytes> {
    match s
    case None => None
    case Some(r) => Some([c] + r)
  }

  lemma EncodeStep(c: Byte, s: Bytes)
    ensures Encode([c] + s) == EncodeByte(c) + Encode(s)
  {
    assert ([c] + s)[1..] == s;
  }

  lemma DecodePlain(c: Byte, s: Bytes, ext: Extraction)
    requires c != '%'
    ensures Decode([c] + s, ext) == Prefixed(if c == '+' then ' ' else c, Decode(s, ext))
  {
    assert ([c] + s)[1..] == s;
  }

  lemma DecodeTriplet(hex: Bytes, s: Bytes, ext: Extraction)
    requires |hex| == 2 || (|hex| < 2 && s == [])
    ensures Decode(['%'] + hex + s, ext) ==
            match HexToChar(hex, ext)
            case None => None
            case Some(c) => Prefixed(c, Decode(s, ext))
  {
    var t := ['%'] + hex + s;
    var n := if |t| < 3 then |t| else 3;
    assert t[1..n] == hex && t[n..] == s;
  }

  /** `r` followed by what is still to be decoded. */
  function Appended(r: Bytes, s: Option<Bytes>): Option<Bytes> {
    match s
    case None => None
    case Some(t) => Some(r + t)
  }

  lemma AppendedNil(s: Option<Bytes>)
    ensures Appended([], s) == s
  {
    if s.Some? {
      assert [] + s.value == s.value;
    }
  }

  lemma AppendedPrefixed(r: Bytes, c: Byte, s: Option<Bytes>)
    ensures Appended(r, Prefixed(c, s)) == Appended(r + [c], s)
  {
    if s.Some? {
      assert r + ([c] + s.value) == (r + [c]) + s.value;
    }
  }

  // ----- the loops -----

  method UriEncode(toEncode: Bytes) returns (r: Bytes)
    ensures r == Encode(toEncode)
  {
    r := [];
    ghost var rest := toEncode;
    for i := 0 to |toEncode|
      invariant rest == toEncode[i..]
      invariant r + Encode(rest) == Encode(toEncode)
    {
      var c := toEncode[i];
      ghost var before := r;
      assert rest == [c] + toEncode[i + 1..];
      rest := toEncode[i + 1..];
      EncodeStep(c, rest);
      var t := SignedChar(c);
      if t == 45 || 48 <= t <= 57 || 65 <= t <= 90 || t == 95 || 97 <= t <= 122 || t == 126 {
        r := r + [c];
      } else {
        r := r + CharToHex(c);
      }
      assert r == before + EncodeByte(c);
      Concatenation(before, EncodeByte(c), Encode(rest));
    }
    assert rest == [];
  }

  lemma SplitAt(s: Bytes, i: nat, end: nat)
    requires i < end <= |s|
    ensures s[i..] == [s[i]] + s[i + 1..end] + s[end..]
  {
  }

  method UriDecode(toDecode: Bytes, ext: Extraction) returns (r: Option<Bytes>)
    ensures r == Decode(toDecode, ext)
  {
    ghost var answer := Decode(toDecode, ext);
    AppendedNil(answer);
    var out: Bytes := [];
    var i := 0;
    ghost var rest := toDecode;
    while i < |toDecode|
      invariant 0 <= i && rest == if i < |toDecode| then toDecode[i..] else []
      invariant answer == Appended(out, Decode(rest, ext))
    {
      var c := toDecode[i];
      if c == '%' {
        var end := if i + 3 <= |toDecode| then i + 3 else |toDecode|;
        var hex := toDecode[i + 1..end];
        SplitAt(toDecode, i, end);
        rest := toDecode[end..];
        DecodeTriplet(hex, rest, ext);
        match HexToChar(hex, ext)
        case None => return None;
        case Some(d) =>
          AppendedPrefixed(out, d, Decode(rest, ext));
          out := out + [d];
        i := i + 2;
      } else {
        assert rest == [c] + toDecode[i + 1..];
        rest := toDecode[i + 1..];
        DecodePlain(c, rest, ext);
        if c == '+' {
          AppendedPrefixed(out, ' ', Decode(rest, ext));
          out := out + [' '];
        } else {
          AppendedPrefixed(out, c, Decode(rest, ext));
          out := out + [c];
        }
      }
      i := i + 1;
    }
    assert out + [] == out;
    r := Some(out);
  }

  // ----- properties -----

  lemma PrefixedAppended(c: Byte, r: Bytes, s: Option<Bytes>)
    ensures Prefixed(c, Appended(r, s)) == Appended([c] + r, s)
  {
    if s.Some? {
      Concatenation([c], r, s.value);
    }
  }

  /** `e` is some percent-encoding of `s`: each byte stands for itself, unless it is a percent or a plus
      sign, or a plus sign stands for a space, or two hexadecimal digits in either case follow a
      percent sign. */
  predicate Encodes(e: Bytes, s: Bytes)
    decreases |s|
  {
    if s == [] then e == []
    else
      || (e != [] && e[0] == s[0] && e[0] != '%' && e[0] != '+' && Encodes(e[1..], s[1..]))
      || (e != [] && e[0] == '+' && s[0] == ' ' && Encodes(e[1..], s[1..]))
      || (3 <= |e| && IsTriplet(e[..3], s[0]) && Encodes(e[3..], s[1..]))
  }

  predicate IsTriplet(e: Bytes, c: Byte)
    requires |e| == 3
  {
    e[0] == '%' && IsHexDigit(e[1]) && IsHexDigit(e[2]) && HexValue(e[1]) * 16 + HexValue(e[2]) == c as int
  }

  lemma DecodeOneTriplet(e: Bytes, c: Byte, s: Bytes, ext: Extraction)
    requires |e| == 3 && IsTriplet(e, c)
    ensures Decode(e + s, ext) == Prefixed(c, Decode(s, ext))
  {
    var hex := e[1..];
    assert e == ['%'] + hex;
    DecodeTriplet(hex, s, ext);
  }

  /** Decoding undoes every percent-encoding, in front of any further text. */
  lemma {:induction false} DecodeEncoded(e: Bytes, s: Bytes, b: Bytes, ext: Extraction)
    requires Encodes(e, s)
    ensures Decode(e + b, ext) == Appended(s, Decode(b, ext))
    decreases |s|
  {
    hide Decode;
    if s == [] {
      assert e + b == b;
      AppendedNil(Decode(b, ext));
    } else {
      var c, tail := s[0], s[1..];
      assert s == [c] + tail;
      var n := if e[0] == '%' then 3 else 1;
      assert e == e[..n] + e[n..];
      Concatenation(e[..n], e[n..], b);
      DecodeEncoded(e[n..], tail, b, ext);
      if n == 1 {
        assert e[..1] == [e[0]];
        DecodePlain(e[0], e[1..] + b, ext);
      } else {
        DecodeOneTriplet(e[..3], c, e[3..] + b, ext);
      }
      PrefixedAppended(c, tail, Decode(b, ext));
    }
  }

  /** What `UriEncode` writes is one such encoding. */
  lemma {:induction false} EncodeEncodes(s: Bytes)
    ensures Encodes(Encode(s), s)
  {
    if s != [] {
      EncodeEncodes(s[1..]);
      var e := EncodeByte(s[0]);
      assert Encode(s)[|e|..] == Encode(s[1..]);
      assert Encode(s)[..|e|] == e;
    }
  }

  /** Decoding undoes encoding in front of any further text. */
  lemma DecodeEncode(a: Bytes, b: Bytes, ext: Extraction)
    ensures Decode(Encode(a) + b, ext) == Appended(a, Decode(b, ext))
  {
    EncodeEncodes(a);
    DecodeEncoded(Encode(a), a, b, ext);
  }

  /** Unreserved characters in the sense of section 2.3 of RFC 3986. */
  predicate IsRfcUnreserved(c: Byte) {
    'a' <= c <= 'z' || 'A' <= c <= 'Z' || '0' <= c <= '9' || c == '-' || c == '.' || c == '_' || c == '~'
  }

  /** The encoder passes a byte through exactly when it is unreserved and not the full stop. */
  lemma PassesThroughIff(c: Byte)
    ensures EncodeByte(c) == [c] <==> IsRfcUnreserved(c) && c != '.'
  {
    assert |CharToHex(c)| == 3;
  }

  /** What the web pages send: jQuery's `serialize`, which is JavaScript's `encodeURIComponent` with a
      plus sign for a space. */
  function Serialize(s: Bytes): Bytes {
    if s == [] then [] else SerializeByte(s[0]) + Serialize(s[1..])
  }

  function SerializeByte(c: Byte): Bytes {
    if c == ' ' then ['+']
    else if IsRfcUnreserved(c) || c == '!' || c == '*' || c == '\'' || c == '(' || c == ')' then [c]
    else ['%', UpperHexDigit(c as int / 16), UpperHexDigit(c as int % 16)]
  }

  function UpperHexDigit(v: nat): (c: Byte)
    requires v < 16
    ensures IsHexDigit(c) && HexValue(c) == v
  {
    if v < 10 then ('0' as int + v) as char else ('A' as int + v - 10) as char
  }

  /** What the pages send is another encoding, so the server decodes it alike. */
  lemma {:induction false} SerializeEncodes(s: Bytes)
    ensures Encodes(Serialize(s), s)
  {
    if s != [] {
      SerializeEncodes(s[1..]);
      var e := SerializeByte(s[0]);
      assert Serialize(s)[|e|..] == Serialize(s[1..]);
      assert Serialize(s)[..|e|] == e;
    }
  }

  /** The percent-coding round trip, for every byte string. */
  lemma UriRoundTrip(s: Bytes, ext: Extraction)
    ensures Decode(Encode(s), ext) == Some(s)
  {
    DecodeEncode(s, [], ext);
    assert Encode(s) + [] == Encode(s) && s + [] == s;
  }

  /** The grammar of encoded text: unreserved characters and percent-encoded triplets. */
  predicate WellEncoded(s: Bytes)
    decreases |s|
  {
    s == []
    || (Unreserved(s[0]) && WellEncoded(s[1..]))
    || (3 <= |s| && s[0] == '%' && IsHexDigit(s[1]) && IsHexDigit(s[2]) && WellEncoded(s[3..]))
  }

  /** Encoded text is well formed and between one and three times as long. */
  lemma {:induction false} EncodedShape(s: Bytes)
    ensures WellEncoded(Encode(s)) && |s| <= |Encode(s)| <= 3 * |s|
  {
    if s != [] {
      EncodedShape(s[1..]);
      var e := EncodeByte(s[0]);
      assert Encode(s)[|e|..] == Encode(s[1..]);
    }
  }

  // ----- the codes in numbers -----

  /** `c` is the hexadecimal digit, in either case, with the value `v`. */
  predicate HexIs(c: char, v: int) {
    || ('0' <= c <= '9' && v == c as int - 48)
    || ('a' <= c <= 'f' && v == c as int - 87)
    || ('A' <= c <= 'F' && v == c as int - 55)
  }

  /** Each byte that is no letter, digit, hyphen, underscore or tilde is written as a percent sign and its
      number in two lower-case hexadecimal digits. */
  lemma EncodedInHex(c: Byte)
    ensures var e := EncodeByte(c);
            if 'a' <= c <= 'z' || 'A' <= c <= 'Z' || '0' <= c <= '9' || c == '-' || c == '_' || c == '~' then e == [c]
            else
              && |e| == 3 && e[0] == '%' && HexIs(e[1], c as int / 16) && HexIs(e[2], c as int % 16)
              && !('A' <= e[1] <= 'F') && !('A' <= e[2] <= 'F')
  {
  }

  /** Two hexadecimal digits behind a percent sign are the byte with that number; at the end of the text
      one digit is its own number, and none is zero. A plus sign is a space. */
  lemma DecodedFromHex(a: Byte, v: int, b: Byte, w: int, s: Bytes, ext: Extraction)
    requires HexIs(a, v) && HexIs(b, w)
    ensures 0 <= v < 16 && 0 <= w < 16
    ensures Decode(['%', a, b] + s, ext) == Prefixed((16 * v + w) as char, Decode(s, ext))
    ensures Decode(['%', a], ext) == Some([v as char]) && Decode(['%'], ext) == Some(['\0'])
    ensures Decode(['+'] + s, ext) == Prefixed(' ', Decode(s, ext))
  {
    HexValueIs(a, v);
    HexValueIs(b, w);
    assert ['%'] + [a, b] + s == ['%', a, b] + s && ['%'] + [a] + [] == ['%', a] && ['%'] + [] + [] == ['%'];
    assert Decode([], ext) == Some([]);
    assert [v as char] + [] == [v as char] && ['\0'] + [] == ['\0'];
    hide Decode, HexIs, HexValue, IsHexDigit;
    DecodeTriplet([a, b], s, ext);
    DecodeTriplet([a], [], ext);
    DecodeTriplet([], [], ext);
    DecodePlain('+', s, ext);
  }

  lemma HexValueIs(c: char, v: int)
    requires HexIs(c, v)
    ensures IsHexDigit(c) && HexValue(c) == v && 0 <= v < 16
  {
  }
}
