/** Character classes and decimal numerals, as Java's regular expressions and
    StringBuilder.append(int) see them. */
module Text {

  predicate IsDigit(c: char) { '0' <= c <= '9' }

  predicate AllDigits(s: string) {
    forall i | 0 <= i < |s| :: IsDigit(s[i])
  }

  /** A non-empty run of ASCII digits, the text `[0-9]+` matches. */
  predicate IsNumeral(s: string) { |s| > 0 && AllDigits(s) }

  /** The Unicode White_Space property, which `\p{IsWhite_Space}` matches. */
  predicate IsWhiteSpace(c: char) {
    var n := c as int;
    (0x09 <= n <= 0x0D) || n == 0x20 || n == 0x85 || n == 0xA0 || n == 0x1680
    || (0x2000 <= n <= 0x200A) || n == 0x2028 || n == 0x2029 || n == 0x202F
    || n == 0x205F || n == 0x3000
  }

  /** The characters that `.` does not match in a Java pattern compiled without flags. */
  predicate IsLineTerminator(c: char) {
    var n := c as int;
    n == 0x0A || n == 0x0D || n == 0x85 || n == 0x2028 || n == 0x2029
  }

  /** Text that `.*` matches in full. */
  predicate NoLineTerminator(s: string) {
    forall i | 0 <= i < |s| :: !IsLineTerminator(s[i])
  }

  function DigitChar(d: nat): (c: char)
    requires d < 10
    ensures IsDigit(c)
  {
    ('0' as int + d) as char
  }

  /** The value of a numeral read most significant digit first (Integer.parseInt
      without its range check). */
  function DigitsValue(s: string): nat
    requires AllDigits(s)
    decreases |s|
  {
    if |s| == 0 then 0
    else 10 * DigitsValue(s[..|s| - 1]) + ((s[|s| - 1] as int) - ('0' as int))
  }

  /** The decimal text of a non-negative int, as StringBuilder.append(int) writes it. */
  function NatToString(n: nat): (r: string)
    ensures IsNumeral(r)
    ensures r[0] == '0' ==> n == 0
    decreases n
  {
    if n < 10 then [DigitChar(n)] else NatToString(n / 10) + [DigitChar(n % 10)]
  }

  /** Reading back the decimal text of n gives n. */
  lemma {:induction false} NatToStringValue(n: nat)
    ensures DigitsValue(NatToString(n)) == n
  {
    if n >= 10 {
      NatToStringValue(n / 10);
      var s := NatToString(n);
      assert s[..|s| - 1] == NatToString(n / 10);
    }
  }
}
