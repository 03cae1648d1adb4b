/** String primitives that email synthesis and collision resolution are built
    from: the character classes of the name-splitting pattern, ASCII lower-casing,
    letter filtering, and the decimal rendering of a counter. */
module Text {

  /** The domain every synthesised or suffixed address ends in. */
  const GmailDomain: string := "@gmail.com"

  /** Python's `\s` restricted to ASCII: tab, line feed, vertical tab, form
      feed and carriage return (9-13), the four information separators
      (28-31) and space (32) are exactly the ASCII characters `str.isspace`
      accepts. */
  predicate IsWhitespace(c: char) {
    9 <= c as int <= 13 || 28 <= c as int <= 32
  }

  /** The character class `[\s,]` that names are split on. */
  predicate IsDelimiter(c: char) {
    c == ',' || IsWhitespace(c)
  }

  /** The character classes that prefixes are measured in: name characters
      (anything but a delimiter), delimiters, and anything but '@'. */
  datatype CharClass = WordChars | Delimiters | NotAt

  predicate InClass(c: char, kind: CharClass) {
    match kind
    case WordChars => !IsDelimiter(c)
    case Delimiters => IsDelimiter(c)
    case NotAt => c != '@'
  }

  predicate AllInClass(s: string, kind: CharClass) {
    forall i :: 0 <= i < |s| ==> InClass(s[i], kind)
  }

  predicate IsUpperLetter(c: char) {
    'A' <= c <= 'Z'
  }

  predicate IsLowerLetter(c: char) {
    'a' <= c <= 'z'
  }

  /** The character class `[a-zA-Z]`. */
  predicate IsLetter(c: char) {
    IsUpperLetter(c) || IsLowerLetter(c)
  }

  predicate HasNoUpper(s: string) {
    forall i :: 0 <= i < |s| ==> !IsUpperLetter(s[i])
  }

  /** A string of lower-case ASCII letters only. */
  predicate IsLowerWord(s: string) {
    forall i :: 0 <= i < |s| ==> IsLowerLetter(s[i])
  }

  predicate IsAscii(s: string) {
    forall i :: 0 <= i < |s| ==> s[i] as int < 128
  }

  /** The longest prefix of `s` whose characters all belong to `kind`. */
  function Span(s: string, kind: CharClass): (w: string)
    ensures |w| <= |s| && w == s[..|w|]
    ensures AllInClass(w, kind)
    ensures |w| < |s| ==> !InClass(s[|w|], kind)
  {
    if s != [] && InClass(s[0], kind) then [s[0]] + Span(s[1..], kind) else []
  }

  /** `str.lower()` on one ASCII character. */
  function LowerChar(c: char): (d: char)
    ensures IsLetter(d) <==> IsLetter(c)
    ensures !IsUpperLetter(d)
    ensures !IsUpperLetter(c) ==> d == c
    ensures IsUpperLetter(c) ==> d as int == c as int + 32
  {
    if IsUpperLetter(c) then (c as int - 'A' as int + 'a' as int) as char else c
  }

  /** `str.lower()` on an ASCII string. */
  function Lower(s: string): (r: string)
    ensures |r| == |s|
    ensures HasNoUpper(r)
  {
    if s == [] then [] else [LowerChar(s[0])] + Lower(s[1..])
  }

  /** Lower-casing works character by character. */
  lemma {:induction false} LowerPointwise(s: string)
    ensures forall i :: 0 <= i < |s| ==> Lower(s)[i] == LowerChar(s[i])
    decreases |s|
  {
    if s != [] {
      LowerPointwise(s[1..]);
    }
  }

  /** `re.sub(r'[^a-zA-Z]', '', s)`: the ASCII letters of `s`, in order. */
  function KeepLetters(s: string): (r: string)
    ensures |r| <= |s|
    ensures forall i :: 0 <= i < |r| ==> IsLetter(r[i])
    ensures HasNoUpper(s) ==> IsLowerWord(r)
    ensures (forall i :: 0 <= i < |s| ==> IsLetter(s[i])) ==> r == s
    ensures (forall i :: 0 <= i < |s| ==> !IsLetter(s[i])) ==> r == []
  {
    if s == [] then [] else (if IsLetter(s[0]) then [s[0]] else []) + KeepLetters(s[1..])
  }

  lemma {:induction false} KeepLettersAppend(a: string, b: string)
    ensures KeepLetters(a + b) == KeepLetters(a) + KeepLetters(b)
    decreases |a|
  {
    if a == [] {
      assert a + b == b;
    } else {
      assert (a + b)[1..] == a[1..] + b;
      KeepLettersAppend(a[1..], b);
    }
  }

  lemma {:induction false} LowerAppend(a: string, b: string)
    ensures Lower(a + b) == Lower(a) + Lower(b)
    decreases |a|
  {
    if a == [] {
      assert a + b == b;
    } else {
      assert (a + b)[1..] == a[1..] + b;
      LowerAppend(a[1..], b);
    }
  }

  /** Lower-casing does not change which characters are letters, so it
      commutes with the letter filter. */
  lemma {:induction false} LowerKeepLettersCommute(s: string)
    ensures KeepLetters(Lower(s)) == Lower(KeepLetters(s))
    decreases |s|
  {
    if s != [] {
      var head := if IsLetter(s[0]) then [s[0]] else [];
      calc {
        KeepLetters(Lower(s));
        { assert Lower(s) == [LowerChar(s[0])] + Lower(s[1..]); }
        KeepLetters([LowerChar(s[0])] + Lower(s[1..]));
        { KeepLettersAppend([LowerChar(s[0])], Lower(s[1..])); }
        KeepLetters([LowerChar(s[0])]) + KeepLetters(Lower(s[1..]));
        { LowerKeepLettersCommute(s[1..]); }
        Lower(head) + Lower(KeepLetters(s[1..]));
        { LowerAppend(head, KeepLetters(s[1..])); }
        Lower(head + KeepLetters(s[1..]));
      }
    }
  }

  /** The longest prefix of `a + b` in `kind` is `a` when all of `a` is in
      `kind` and `b` does not continue it. */
  lemma {:induction false} SpanOfPrefix(a: string, b: string, kind: CharClass)
    requires AllInClass(a, kind)
    requires b == [] || !InClass(b[0], kind)
    ensures Span(a + b, kind) == a
    decreases |a|
  {
    if a == [] {
      assert a + b == b;
    } else {
      assert (a + b)[1..] == a[1..] + b;
      SpanOfPrefix(a[1..], b, kind);
    }
  }

  predicate IsDigit(c: char) {
    '0' <= c <= '9'
  }

  predicate AllDigits(s: string) {
    forall i :: 0 <= i < |s| ==> IsDigit(s[i])
  }

  function DigitChar(d: nat): (c: char)
    requires d < 10
    ensures IsDigit(c)
  {
    ('0' as int + d) as char
  }

  function DigitValue(c: char): (d: nat)
    requires IsDigit(c)
    ensures d < 10 && DigitChar(d) == c
  {
    c as int - '0' as int
  }

  /** `str(n)` (equivalently an f-string field) for a natural number: its
      decimal numeral, most significant digit first, without leading zeros. */
  function Decimal(n: nat): (r: string)
    ensures 1 <= |r| && AllDigits(r)
    ensures r[0] == '0' <==> n == 0
    ensures |r| == 1 <==> n < 10
    decreases n
  {
    if n < 10 then [DigitChar(n)] else Decimal(n / 10) + [DigitChar(n % 10)]
  }

  /** The value a decimal numeral denotes (`int(s)`). */
  function DecimalValue(s: string): nat
    requires AllDigits(s)
    decreases |s|
  {
    if s == [] then 0 else 10 * DecimalValue(s[..|s| - 1]) + DigitValue(s[|s| - 1])
  }

  lemma {:induction false} DecimalRoundTrip(n: nat)
    ensures DecimalValue(Decimal(n)) == n
    decreases n
  {
    if n >= 10 {
      DecimalRoundTrip(n / 10);
      var r := Decimal(n);
      assert r[..|r| - 1] == Decimal(n / 10);
    }
  }

  /** Distinct counters render as distinct numerals. */
  lemma DecimalInjective(m: nat, n: nat)
    requires Decimal(m) == Decimal(n)
    ensures m == n
  {
    DecimalRoundTrip(m);
    DecimalRoundTrip(n);
  }
}
