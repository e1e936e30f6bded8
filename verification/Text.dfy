/** Text helpers shared by the other modules: decimal numerals as written by
    `std::to_string` and the reading of integers done by `std::stoi`. */
module Text {

  datatype Option<+T> = None | Some(value: T)

  function Front<T>(xs: seq<T>): seq<T>
    requires xs != []
  {
    xs[..|xs| - 1]
  }

  function Back<T>(xs: seq<T>): T
    requires xs != []
  {
    xs[|xs| - 1]
  }

  function Without<T(==)>(xs: seq<T>, x: T): seq<T> {
    if xs == [] then [] else (if xs[0] == x then [] else [xs[0]]) + Without(xs[1..], x)
  }

  lemma Concatenation<T>(a: seq<T>, b: seq<T>, c: seq<T>)
    ensures (a + b) + c == a + (b + c)
  {
  }

  const INT_MAX: int := 0x7fff_ffff
  const INT_MIN: int := -0x8000_0000

  /** The values of the C++ type `int`. */
  type Int32 = n: int | INT_MIN <= n <= INT_MAX

  predicate IsDigit(c: char) {
    '0' <= c <= '9'
  }

  predicate AllDigits(s: string) {
    forall i :: 0 <= i < |s| ==> IsDigit(s[i])
  }

  function DigitValue(c: char): (d: nat)
    requires IsDigit(c)
    ensures d < 10
  {
    c as int - '0' as int
  }

  function DigitChar(d: nat): (c: char)
    requires d < 10
    ensures IsDigit(c) && DigitValue(c) == d
  {
    (d + '0' as int) as char
  }

  /** The canonical decimal numeral of a natural number. */
  function Decimal(n: nat): string {
    if n < 10 then [DigitChar(n)] else Decimal(n / 10) + [DigitChar(n % 10)]
  }

  /** The number that a string of decimal digits denotes. */
  function DigitsValue(s: string): nat
    requires AllDigits(s)
  {
    if s == "" then 0
    else 10 * DigitsValue(s[..|s| - 1]) + DigitValue(s[|s| - 1])
  }

  /** Decimal writes digits only, never writes a superfluous leading zero, and
      reading the digits back gives the number. */
  lemma {:induction false} DecimalRoundTrip(n: nat)
    ensures AllDigits(Decimal(n)) && DigitsValue(Decimal(n)) == n
    ensures 0 < |Decimal(n)| && (Decimal(n)[0] == '0' <==> n == 0)
  {
    if n < 10 {
      assert Decimal(n)[..0] == "";
      assert n != 0 ==> DigitChar(n) != '0';
    } else {
      DecimalRoundTrip(n / 10);
      assert Decimal(n)[..|Decimal(n)| - 1] == Decimal(n / 10);
    }
  }

  /** The white space between tokens, in a configuration as in JSON. */
  predicate IsBlank(c: char) {
    c == ' ' || c == '\t' || c == '\n' || c == '\r'
  }

  function SkipBlanks(s: string): (r: string)
    ensures |r| <= |s|
    ensures r != "" ==> !IsBlank(r[0])
  {
    if s != "" && IsBlank(s[0]) then SkipBlanks(s[1..]) else s
  }

  /** White space in the sense of `isspace` in the C locale. */
  predicate IsSpace(c: char) {
    c == ' ' || c == '\t' || c == '\n' || c == '\U{0b}' || c == '\U{0c}' || c == '\r'
  }

  function SkipSpace(s: string): string {
    if s != "" && IsSpace(s[0]) then SkipSpace(s[1..]) else s
  }

  /** Length of the longest prefix of `s` made of digits. */
  function DigitRun(s: string): (n: nat)
    ensures n <= |s| && AllDigits(s[..n])
    ensures n < |s| ==> !IsDigit(s[n])
  {
    if s != "" && IsDigit(s[0]) then
      var n := 1 + DigitRun(s[1..]);
      assert forall i :: 1 <= i < n ==> s[i] == s[1..][..n - 1][i - 1];
      n
    else 0
  }

  lemma {:induction false} DigitRunIs(w: string, r: string)
    requires AllDigits(w) && (r != "" ==> !IsDigit(r[0]))
    ensures DigitRun(w + r) == |w|
  {
    if w == "" {
      assert w + r == r;
    } else {
      assert (w + r)[1..] == w[1..] + r;
      DigitRunIs(w[1..], r);
    }
  }

  /** The magnitude read from the digits at the front of `s`, ignoring what follows them. */
  function LeadingNumber(s: string): Option<nat> {
    var n := DigitRun(s);
    if n == 0 then None else Some(DigitsValue(s[..n]))
  }

  /** `std::stoi`: leading white space and one sign are accepted, whatever follows the digits is
      ignored, and None stands for either exception (no digits, or a value outside `int`). */
  function Stoi(s: string): Option<Int32> {
    var t := SkipSpace(s);
    var negative := t != "" && t[0] == '-';
    var digits := if t != "" && (t[0] == '-' || t[0] == '+') then t[1..] else t;
    match LeadingNumber(digits)
    case None => None
    case Some(m) =>
      var v := (if negative then -1 else 1) * m;
      if INT_MIN <= v <= INT_MAX then Some(v) else None
  }

  lemma DigitRunAll(s: string)
    requires AllDigits(s)
    ensures DigitRun(s) == |s|
  {
  }

  lemma StoiOfDigits(s: string)
    requires s != "" && AllDigits(s)
    ensures Stoi(s) == if DigitsValue(s) <= INT_MAX then Some(DigitsValue(s)) else None
  {
    hide DigitsValue, DigitRun;
    assert IsDigit(s[0]);
    DigitRunAll(s);
    assert s[..|s|] == s;
    assert LeadingNumber(s) == Some(DigitsValue(s));
  }

  /** `stoi` reads back what `to_string` wrote exactly when the number fits an `int`. */
  lemma StoiOfDecimal(n: nat)
    ensures Stoi(Decimal(n)) == if n <= INT_MAX then Some(n) else None
  {
    hide *;
    DecimalRoundTrip(n);
    StoiOfDigits(Decimal(n));
  }

  /** `std::to_string` of an `int`. */
  function IntText(n: Int32): string {
    var v: int := n;
    if v < 0 then "-" + Decimal(-v) else Decimal(v)
  }

  lemma StoiOfNegative(s: string)
    requires s != "" && AllDigits(s) && DigitsValue(s) <= -INT_MIN
    ensures var v: int := DigitsValue(s); Stoi("-" + s) == Some(-v)
  {
    hide DigitsValue, DigitRun;
    DigitRunAll(s);
    assert ("-" + s)[1..] == s;
    assert s[..|s|] == s;
    assert LeadingNumber(s) == Some(DigitsValue(s));
  }

  /** `stoi` reads back whatever `to_string` writes for an `int`. */
  lemma StoiOfIntText(n: Int32)
    ensures Stoi(IntText(n)) == Some(n)
  {
    hide Stoi, Decimal, DigitsValue;
    var v: int := n;
    if v < 0 {
      DecimalRoundTrip(-v);
      StoiOfNegative(Decimal(-v));
    } else {
      StoiOfDecimal(v);
    }
  }

  /** Decimal notation, digit by digit. */
  lemma DecimalDigits(n: nat, d: nat)
    requires d < 10
    ensures Decimal(d) == [(d + '0' as int) as char]
    ensures n > 0 ==> Decimal(10 * n + d) == Decimal(n) + [(d + '0' as int) as char]
  {
    assert (10 * n + d) / 10 == n && (10 * n + d) % 10 == d;
  }

  lemma {:induction false} SkipSpaceIs(space: string, s: string)
    requires forall i :: 0 <= i < |space| ==> space[i] in {' ', '\t', '\n', '\U{0b}', '\U{0c}', '\r'}
    requires s == "" || s[0] !in {' ', '\t', '\n', '\U{0b}', '\U{0c}', '\r'}
    ensures SkipSpace(space + s) == s
  {
    if space == "" {
      assert space + s == s;
    } else {
      assert (space + s)[1..] == space[1..] + s;
      SkipSpaceIs(space[1..], s);
    }
  }

  /** What `stoi` reads: white space, at most one sign, and a run of digits, whatever follows them. */
  lemma StoiReads(space: string, sign: string, digits: string, rest: string)
    requires forall i :: 0 <= i < |space| ==> space[i] in {' ', '\t', '\n', '\U{0b}', '\U{0c}', '\r'}
    requires sign == "" || sign == "+" || sign == "-"
    requires digits != "" && forall i :: 0 <= i < |digits| ==> '0' <= digits[i] <= '9'
    requires rest == "" || !('0' <= rest[0] <= '9')
    ensures AllDigits(digits)
    ensures var m: int := DigitsValue(digits);
            var v := if sign == "-" then -m else m;
            Stoi(space + (sign + (digits + rest))) == if -0x8000_0000 <= v < 0x8000_0000 then Some(v) else None
  {
    hide *;
    var t := digits + rest;
    LeadingNumberIs(digits, rest);
    SignedText(sign, t);
    SkipSpaceIs(space, sign + t);
    StoiOfSigned(space + (sign + t), sign, t, DigitsValue(digits));
  }

  lemma StoiOfSigned(s: string, sign: string, t: string, m: nat)
    requires sign == "" || sign == "+" || sign == "-"
    requires SkipSpace(s) == sign + t && t != "" && '0' <= t[0] <= '9' && LeadingNumber(t) == Some(m)
    ensures var v: int := if sign == "-" then 0 - m else m;
            Stoi(s) == if -0x8000_0000 <= v < 0x8000_0000 then Some(v) else None
  {
    SignedText(sign, t);
    hide SkipSpace, LeadingNumber;
  }

  lemma SignedText(sign: string, t: string)
    requires sign == "" || sign == "+" || sign == "-"
    ensures sign == "" ==> sign + t == t
    ensures sign != "" ==> (sign + t)[0] == sign[0] && (sign + t)[1..] == t
  {
  }

  lemma LeadingNumberIs(digits: string, rest: string)
    requires digits != "" && forall i :: 0 <= i < |digits| ==> '0' <= digits[i] <= '9'
    requires rest == "" || !('0' <= rest[0] <= '9')
    ensures AllDigits(digits) && LeadingNumber(digits + rest) == Some(DigitsValue(digits))
    ensures (digits + rest)[0] == digits[0]
  {
    hide DigitsValue, DigitRun;
    DigitRunIs(digits, rest);
    assert (digits + rest)[..|digits|] == digits;
  }

  /** Without a digit in that place it throws. */
  lemma StoiThrows(space: string, sign: string, rest: string)
    requires forall i :: 0 <= i < |space| ==> space[i] in {' ', '\t', '\n', '\U{0b}', '\U{0c}', '\r'}
    requires sign == "" || sign == "+" || sign == "-"
    requires rest == "" || !('0' <= rest[0] <= '9')
    requires sign == "" && rest != "" ==> rest[0] !in {' ', '\t', '\n', '\U{0b}', '\U{0c}', '\r', '+', '-'}
    ensures Stoi(space + (sign + rest)) == None
  {
    SkipSpaceIs(space, sign + rest);
    SignedText(sign, rest);
    hide SkipSpace, DigitsValue;
  }
}
