/**
  Characters, decimal numbers and white space.
 */
module Text {

  predicate IsDigit(c: char) {
    '0' <= c <= '9'
  }

  function Digit(d: nat): (c: char)
    requires d < 10
    ensures IsDigit(c)
  {
    '0' + d as char
  }

  /** The shortest decimal form of a number. */
  function Decimal(n: nat): (s: string)
    ensures s != [] && forall i :: 0 <= i < |s| ==> IsDigit(s[i])
  {
    if n < 10 then [Digit(n)] else Decimal(n / 10) + [Digit(n % 10)]
  }

  /** The value of a run of digits. */
  function Value(s: string): nat
    requires forall i :: 0 <= i < |s| ==> IsDigit(s[i])
  {
    if s == [] then 0
    else
      assert IsDigit(s[|s| - 1]);
      10 * Value(s[..|s| - 1]) + (s[|s| - 1] - '0') as nat
  }

  lemma {:induction false} ValueOfDecimal(n: nat)
    ensures Value(Decimal(n)) == n
  {
    if n >= 10 {
      ValueOfDecimal(n / 10);
      var s := Decimal(n);
      assert s[..|s| - 1] == Decimal(n / 10);
    }
  }

  /** A signed number in decimal. */
  function SignedDecimal(n: int): (s: string)
    ensures s != [] && forall i :: 0 <= i < |s| ==> IsDigit(s[i]) || s[i] == '-'
  {
    if n < 0 then "-" + Decimal(-n) else Decimal(n)
  }

  lemma SignedDecimalInjective(m: int, n: int)
    requires SignedDecimal(m) == SignedDecimal(n)
    ensures m == n
  {
    hide Decimal;
    assert m < 0 ==> SignedDecimal(m)[0] == '-' && SignedDecimal(m)[1..] == Decimal(-m);
    assert n < 0 ==> SignedDecimal(n)[0] == '-' && SignedDecimal(n)[1..] == Decimal(-n);
    assert m >= 0 ==> IsDigit(SignedDecimal(m)[0]);
    assert n >= 0 ==> IsDigit(SignedDecimal(n)[0]);
    ValueOfDecimal(if m < 0 then -m else m);
    ValueOfDecimal(if n < 0 then -n else n);
  }

  /** A number below ten to the `k` has at most `k` digits. */
  lemma {:induction false} DecimalLength(n: nat, k: nat, power: nat)
    requires k >= 1 && n < power && power == Power10(k)
    ensures |Decimal(n)| <= k
    decreases k
  {
    if n >= 10 {
      DecimalLength(n / 10, k - 1, Power10(k - 1));
    }
  }

  function Power10(k: nat): nat {
    if k == 0 then 1 else 10 * Power10(k - 1)
  }

  predicate IsSpace(c: char) {
    c == ' ' || '\t' <= c <= '\r'
  }

  function SkipSpaces(s: string): string {
    if s != [] && IsSpace(s[0]) then SkipSpaces(s[1..]) else s
  }

  /** The longest prefix of digits. */
  function DigitPrefix(s: string): (r: string)
    ensures r <= s && forall i :: 0 <= i < |r| ==> IsDigit(r[i])
  {
    if s != [] && IsDigit(s[0]) then [s[0]] + DigitPrefix(s[1..]) else []
  }

  lemma {:induction false} DigitPrefixOfDigits(s: string)
    requires forall i :: 0 <= i < |s| ==> IsDigit(s[i])
    ensures DigitPrefix(s) == s
  {
    if s != [] {
      DigitPrefixOfDigits(s[1..]);
    }
  }

  /** The C library's `atoi`, as a mathematical integer: spaces, a sign, digits. */
  function Atoi(header: string): int {
    var s := SkipSpaces(header);
    if s != [] && s[0] == '-' then -(Value(DigitPrefix(s[1..])) as int)
    else if s != [] && s[0] == '+' then Value(DigitPrefix(s[1..]))
    else Value(DigitPrefix(s))
  }

  /** `atoi` meets a character it does not use before the end of the text. */
  predicate AtoiStops(text: string) {
    var s := SkipSpaces(text);
    var digits := if s != [] && (s[0] == '-' || s[0] == '+') then s[1..] else s;
    |DigitPrefix(digits)| < |digits|
  }

  lemma AtoiOfDecimal(n: nat)
    ensures Atoi(Decimal(n)) == n
  {
    hide Decimal;
    hide Value;
    DigitPrefixOfDigits(Decimal(n));
    ValueOfDecimal(n);
  }

  /** A signed number reads back, also with a space in front. */
  lemma AtoiOfSigned(n: int)
    ensures Atoi(SignedDecimal(n)) == n
    ensures Atoi(" " + SignedDecimal(n)) == n
  {
    hide Decimal;
    hide Value;
    var s, digits := SignedDecimal(n), Decimal(if n < 0 then -n else n);
    DigitPrefixOfDigits(digits);
    ValueOfDecimal(if n < 0 then -n else n);
    assert n < 0 ==> s[0] == '-' && s[1..] == digits;
    assert !IsSpace(s[0]);
    assert (" " + s)[1..] == s;
    assert SkipSpaces(" " + s) == SkipSpaces(s) == s;
  }

  function TrimRight(s: string): string {
    if s != [] && IsSpace(s[|s| - 1]) then TrimRight(s[..|s| - 1]) else s
  }

  /** Python's `strip`: white space removed at both ends. */
  function Strip(s: string): string {
    TrimRight(SkipSpaces(s))
  }
}
