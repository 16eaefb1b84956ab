/** Python's `string` constants, ASCII case mapping, `str(n)` for naturals and
    `int(s)` as the command-line menus use them. */
module Text {
  import opened Wrappers

  const AsciiLowercase: string := "abcdefghijklmnopqrstuvwxyz"
  const AsciiUppercase: string := "ABCDEFGHIJKLMNOPQRSTUVWXYZ"
  /** `string.ascii_letters` */
  const AsciiLetters: string := AsciiLowercase + AsciiUppercase
  /** `string.digits` */
  const Digits: string := "0123456789"
  /** `string.punctuation` */
  const Punctuation: string := "!\"#$%&'()*+,-./:;<=>?@[\\]^_`{|}~"
  /** `string.whitespace`: space, tab, line feed, carriage return, vertical tab, form feed */
  const Whitespace: string := " \t\n\r" + [11 as char, 12 as char]
  /** `string.printable` */
  const Printable: string := Digits + AsciiLetters + Punctuation + Whitespace
  /** The ASCII characters `str.strip()` and `int()` skip: `string.whitespace`
      and the four separators 0x1C to 0x1F. */
  const AsciiSpace: string := Whitespace + [28 as char, 29 as char, 30 as char, 31 as char]

  predicate IsDigit(c: char) {
    '0' <= c <= '9'
  }

  predicate AllDigits(s: string) {
    forall i | 0 <= i < |s| :: IsDigit(s[i])
  }

  function LowerChar(c: char): char {
    if 'A' <= c <= 'Z' then (c as int + 32) as char else c
  }

  function UpperChar(c: char): char {
    if 'a' <= c <= 'z' then (c as int - 32) as char else c
  }

  /** `s.lower()` on ASCII letters. */
  function Lower(s: string): (r: string)
    ensures |r| == |s|
    ensures forall i | 0 <= i < |s| :: r[i] == LowerChar(s[i])
    ensures forall i | 0 <= i < |r| :: !('A' <= r[i] <= 'Z')
  {
    seq(|s|, i requires 0 <= i < |s| => LowerChar(s[i]))
  }

  /** `s.upper()` on ASCII letters. */
  function Upper(s: string): (r: string)
    ensures |r| == |s|
    ensures forall i | 0 <= i < |s| :: r[i] == UpperChar(s[i])
    ensures forall i | 0 <= i < |r| :: !('a' <= r[i] <= 'z')
  {
    seq(|s|, i requires 0 <= i < |s| => UpperChar(s[i]))
  }

  /** Lower-casing `s` gives `w`, a text without capital letters, exactly
      when each character of `s` is the one of `w` or its capital form. */
  lemma LowerIs(s: string, w: string)
    requires forall i | 0 <= i < |w| :: !('A' <= w[i] <= 'Z')
    ensures Lower(s) == w <==>
      |s| == |w| && forall i | 0 <= i < |s| :: s[i] == w[i] || s[i] == UpperChar(w[i])
  {
    if |s| == |w| && forall i | 0 <= i < |s| :: s[i] == w[i] || s[i] == UpperChar(w[i]) {
      forall i | 0 <= i < |s| ensures Lower(s)[i] == w[i] {
        if s[i] != w[i] {
          assert 'a' <= w[i] <= 'z';
        }
      }
    }
  }

  /** Upper-casing `s` gives `w`, a text without small letters, exactly when
      each character of `s` is the one of `w` or its small form. */
  lemma UpperIs(s: string, w: string)
    requires forall i | 0 <= i < |w| :: !('a' <= w[i] <= 'z')
    ensures Upper(s) == w <==>
      |s| == |w| && forall i | 0 <= i < |s| :: s[i] == w[i] || s[i] == LowerChar(w[i])
  {
    if |s| == |w| && forall i | 0 <= i < |s| :: s[i] == w[i] || s[i] == LowerChar(w[i]) {
      forall i | 0 <= i < |s| ensures Upper(s)[i] == w[i] {
        if s[i] != w[i] {
          assert 'A' <= w[i] <= 'Z';
        }
      }
    }
  }

  /** A one-letter answer `l` in either case, and nothing else, lower-cases
      to `l`: how the menus read "e" (exit) and "c" (cancel). */
  lemma LowerIsLetter(s: string, l: char)
    requires 'a' <= l <= 'z'
    ensures Lower(s) == [l] <==> s == [l] || s == [UpperChar(l)]
  {
    LowerIs(s, [l]);
    if Lower(s) == [l] {
      assert s == [s[0]];
    }
  }

  function DigitValue(c: char): nat
    requires IsDigit(c)
  {
    c as int - '0' as int
  }

  function DigitChar(d: nat): (c: char)
    requires d < 10
    ensures IsDigit(c) && DigitValue(c) == d
  {
    ('0' as int + d) as char
  }

  /** The value of a string of decimal digits, most significant first. */
  function DigitsValue(s: string): nat
    requires AllDigits(s)
  {
    if s == [] then 0 else DigitsValue(s[..|s| - 1]) * 10 + DigitValue(s[|s| - 1])
  }

  /** `str(n)` for a natural number: its decimal digits without leading zeros. */
  function NatToString(n: nat): (s: string)
    ensures s != [] && AllDigits(s)
    ensures DigitsValue(s) == n
    ensures s[0] != '0' || n == 0
  {
    if n < 10 then [DigitChar(n)]
    else
      var prefix := NatToString(n / 10);
      var s := prefix + [DigitChar(n % 10)];
      assert s[..|s| - 1] == prefix;
      s
  }

  function StripLeft(s: string): (r: string)
    ensures |r| <= |s|
  {
    if s != [] && s[0] in AsciiSpace then StripLeft(s[1..]) else s
  }

  function StripRight(s: string): (r: string)
    ensures |r| <= |s|
  {
    if s != [] && s[|s| - 1] in AsciiSpace then StripRight(s[..|s| - 1]) else s
  }

  /** `s.strip()` with the ASCII characters Python treats as space. */
  function Strip(s: string): string {
    StripRight(StripLeft(s))
  }

  /** Decimal digits in groups separated by single underscores, as Python
      integer literals allow (`1_000`). */
  predicate IsDigitGroups(s: string) {
    && s != []
    && IsDigit(s[0])
    && IsDigit(s[|s| - 1])
    && (forall i | 0 <= i < |s| :: IsDigit(s[i]) || s[i] == '_')
    && (forall i | 0 <= i < |s| - 1 :: !(s[i] == '_' && s[i + 1] == '_'))
  }

  function RemoveUnderscores(s: string): (r: string)
    requires forall i | 0 <= i < |s| :: IsDigit(s[i]) || s[i] == '_'
    ensures AllDigits(r)
  {
    if s == [] then []
    else if s[0] == '_' then RemoveUnderscores(s[1..])
    else [s[0]] + RemoveUnderscores(s[1..])
  }

  function UnsignedValue(s: string): Option<nat> {
    if IsDigitGroups(s) then Some(DigitsValue(RemoveUnderscores(s))) else None
  }

  /** Python's `int(s)` in base 10 on ASCII text: surrounding whitespace is
      ignored, one optional sign, then digit groups; anything else raises
      ValueError, modelled as None. */
  function ParseInt(s: string): (r: Option<int>)
    ensures Strip(s) == [] ==> r == None
    ensures s != [] && AllDigits(s) ==> r == Some(DigitsValue(s))
  {
    PlainDigits(s);
    var t := Strip(s);
    if t != [] && t[0] == '-' then
      match UnsignedValue(t[1..])
      case Some(v) => var magnitude: int := v; Some(-magnitude)
      case None => None
    else if t != [] && t[0] == '+' then
      match UnsignedValue(t[1..])
      case Some(v) => var positive: int := v; Some(positive)
      case None => None
    else
      match UnsignedValue(t)
      case Some(v) => var positive: int := v; Some(positive)
      case None => None
  }

  lemma {:induction false} RemoveUnderscoresOfDigits(s: string)
    requires AllDigits(s)
    ensures RemoveUnderscores(s) == s
  {
    if s != [] {
      RemoveUnderscoresOfDigits(s[1..]);
    }
  }

  /** A plain digit string has nothing to strip and no underscores. */
  lemma PlainDigits(s: string)
    ensures s != [] && AllDigits(s) ==> Strip(s) == s && RemoveUnderscores(s) == s
  {
    if s != [] && AllDigits(s) {
      assert s[0] !in AsciiSpace;
      assert StripLeft(s) == s;
      assert s[|s| - 1] !in AsciiSpace;
      RemoveUnderscoresOfDigits(s);
    }
  }

  /** Typing back the number `str(n)` shows is read as `n` by `int()`. */
  lemma ParseIntOfNatToString(n: nat)
    ensures ParseInt(NatToString(n)) == Some(n)
  {
  }
}
