/** Small string helpers: decimal rendering of numbers (used where the source
    interpolates a number or an identifier into a message or a URL) and the
    whitespace test behind `string.IsNullOrWhiteSpace`. */
module Text {
  import opened Wrappers

  function DigitChar(d: nat): char
    requires d < 10
  {
    "0123456789"[d]
  }

  /** Decimal rendering of a natural number, most significant digit first. */
  function NatText(n: nat): (s: string)
    ensures |s| > 0
    ensures forall i :: 0 <= i < |s| ==> '0' <= s[i] <= '9'
  {
    if n < 10 then [DigitChar(n)] else NatText(n / 10) + [DigitChar(n % 10)]
  }

  /** The number a string of decimal digits denotes (the inverse of `NatText`). */
  function DecimalValue(s: string): nat
    requires forall i :: 0 <= i < |s| ==> '0' <= s[i] <= '9'
  {
    if |s| == 0 then 0
    else DecimalValue(s[..|s| - 1]) * 10 + ((s[|s| - 1] as int) - ('0' as int))
  }

  /** Reading back a rendered number gives the number: `NatText` loses nothing. */
  lemma {:induction false} NatTextRoundTrip(n: nat)
    ensures DecimalValue(NatText(n)) == n
  {
    var s := NatText(n);
    if n >= 10 {
      NatTextRoundTrip(n / 10);
      assert s[..|s| - 1] == NatText(n / 10);
    }
  }

  /** Different numbers render differently. */
  lemma NatTextInjective(m: nat, n: nat)
    ensures NatText(m) == NatText(n) ==> m == n
  {
    NatTextRoundTrip(m);
    NatTextRoundTrip(n);
  }

  /** Decimal rendering of an integer, with a leading '-' when negative. */
  function IntText(i: int): string {
    if i < 0 then "-" + NatText(-i) else NatText(i)
  }

  /** A decimal numeral with an optional leading '-'. */
  predicate IsIntText(s: string) {
    if |s| > 0 && s[0] == '-' then IsDigits(s[1..]) else IsDigits(s)
  }

  predicate IsDigits(s: string) {
    forall i :: 0 <= i < |s| ==> '0' <= s[i] <= '9'
  }

  /** The integer a numeral denotes (the inverse of `IntText`). */
  function IntValue(s: string): int
    requires IsIntText(s)
  {
    if |s| > 0 && s[0] == '-' then -(DecimalValue(s[1..]) as int) else DecimalValue(s)
  }

  /** Reading back a rendered integer gives the integer. */
  lemma {:induction false} IntTextRoundTrip(i: int)
    ensures IsIntText(IntText(i)) && IntValue(IntText(i)) == i
  {
    if i < 0 { NegativeRoundTrip(i); } else { NonNegativeRoundTrip(i); }
  }

  /** The round trip for a negative integer. */
  lemma NegativeRoundTrip(i: int)
    requires i < 0
    ensures IsIntText(IntText(i)) && IntValue(IntText(i)) == i
  {
    NegativeTextTail(i);
    NatTextRoundTrip(-i);
    SignedNumeral(IntText(i), NatText(-i), -i);
  }

  /** The round trip for a non-negative integer. */
  lemma NonNegativeRoundTrip(i: int)
    requires i >= 0
    ensures IsIntText(IntText(i)) && IntValue(IntText(i)) == i
  {
    NatTextSign(i);
    NatTextRoundTrip(i);
    UnsignedNumeral(NatText(i), i);
  }

  /** A '-' followed by the digits of `n` is a numeral denoting `-n`. */
  lemma SignedNumeral(s: string, t: string, n: nat)
    requires |s| > 0 && s[0] == '-' && s[1..] == t
    requires IsDigits(t) && DecimalValue(t) == n
    ensures IsIntText(s) && IntValue(s) == -(n as int)
  {
  }

  /** Digits not starting with '-' form a numeral denoting their value. */
  lemma UnsignedNumeral(t: string, n: nat)
    requires IsDigits(t) && DecimalValue(t) == n && (|t| == 0 || t[0] != '-')
    ensures IsIntText(t) && IntValue(t) == n
  {
  }

  /** Different integers render differently. */
  lemma IntTextInjective(a: int, b: int)
    ensures IntText(a) == IntText(b) ==> a == b
  {
    IntTextRoundTrip(a);
    IntTextRoundTrip(b);
  }

  /** After the sign, a negative number renders as its magnitude. */
  lemma NegativeTextTail(i: int)
    requires i < 0
    ensures |IntText(i)| > 0 && IntText(i)[0] == '-' && IntText(i)[1..] == NatText(-i)
  {
  }

  lemma NatTextSign(i: int)
    requires i >= 0
    ensures IntText(i) == NatText(i) && |NatText(i)| > 0 && NatText(i)[0] != '-'
  {
    var t := NatText(i);
    assert '0' <= t[0] <= '9';
  }

  /** The characters .NET's `char.IsWhiteSpace` accepts: the Unicode space,
      line and paragraph separators (categories Zs, Zl, Zp) and the control
      characters U+0009 to U+000D and U+0085. */
  predicate IsWhiteSpace(c: char) {
    || '\U{0009}' <= c <= '\U{000D}'
    || c == '\U{0020}' || c == '\U{0085}' || c == '\U{00A0}' || c == '\U{1680}'
    || '\U{2000}' <= c <= '\U{200A}'
    || c == '\U{2028}' || c == '\U{2029}' || c == '\U{202F}' || c == '\U{205F}' || c == '\U{3000}'
  }

  /** `string.IsNullOrWhiteSpace`: absent, empty, or whitespace only. */
  function IsNullOrWhiteSpace(s: Option<string>): (b: bool)
    ensures s.None? || s == Some("") ==> b
    ensures b <==> s.None? || forall c :: c in s.value ==> IsWhiteSpace(c)
  {
    s.None? || forall i :: 0 <= i < |s.value| ==> IsWhiteSpace(s.value[i])
  }

  /** Spaces of every kind count as blank, including the ideographic space
      U+3000 and the en quad U+2000; a zero-width space U+200B or any other
      character does not. */
  lemma BlankExamples()
    ensures IsNullOrWhiteSpace(Some("\U{3000}")) && IsNullOrWhiteSpace(Some(" \U{2000}\t\U{00A0}"))
    ensures !IsNullOrWhiteSpace(Some("\U{200B}")) && !IsNullOrWhiteSpace(Some(" a "))
  {
    assert " a "[1] == 'a';
    assert "\U{200B}"[0] == '\U{200B}';
  }
}
