/** The parts of java.lang.String and java.lang.Character that the analyzer
    relies on, restricted to ASCII. */
module Text {

  predicate IsHexDigit(c: char) {
    '0' <= c <= '9' || 'a' <= c <= 'f' || 'A' <= c <= 'F'
  }

  /** `Character.digit(c, 16)`: the value of a hex digit, -1 for anything else. */
  function HexDigitValue(c: char): (d: int)
    ensures -1 <= d < 16
    ensures d == -1 <==> !IsHexDigit(c)
    ensures IsHexDigit(c) ==> "0123456789abcdef"[d] == c || "0123456789ABCDEF"[d] == c
  {
    if '0' <= c <= '9' then c as int - '0' as int
    else if 'a' <= c <= 'f' then c as int - 'a' as int + 10
    else if 'A' <= c <= 'F' then c as int - 'A' as int + 10
    else -1
  }

  /** The digit `String.format("%X", d)` prints for `0 <= d < 16`. */
  function UpperHexDigit(d: int): (c: char)
    requires 0 <= d < 16
    ensures IsHexDigit(c) && HexDigitValue(c) == d
    ensures c as int > 0x20
  {
    if d < 10 then ('0' as int + d) as char else ('A' as int + d - 10) as char
  }

  /** A character the regular expression `\s` matches: space, tab, line feed,
      vertical tab, form feed, carriage return. */
  predicate IsRegexSpace(c: char) {
    c == ' ' || c == '\t' || c == '\n' || c == '\r' || c as int == 0x0B || c as int == 0x0C
  }

  /** `s.trim().isEmpty()`: trim removes every character up to U+0020 from both
      ends, so the trimmed text is empty exactly when no character is above it. */
  predicate IsBlank(s: string) {
    forall i :: 0 <= i < |s| ==> s[i] as int <= 0x20
  }

  /** `s.replaceAll("\\s+", "")`. */
  function StripWhitespace(s: string): (r: string)
    ensures |r| <= |s|
    ensures forall i :: 0 <= i < |r| ==> !IsRegexSpace(r[i])
  {
    if |s| == 0 then ""
    else if IsRegexSpace(s[|s| - 1]) then StripWhitespace(s[..|s| - 1])
    else StripWhitespace(s[..|s| - 1]) + [s[|s| - 1]]
  }

  /** A lone whitespace character is removed; with `StripWhitespaceAppend`
      and `StripWhitespaceKeepsSolid` this fixes the result on every text:
      the non-whitespace characters, in their order. */
  lemma StripWhitespaceDropsSpace(c: char)
    requires IsRegexSpace(c)
    ensures StripWhitespace([c]) == ""
  {
    assert [c][..0] == "";
  }

  lemma {:induction false} StripWhitespaceAppend(a: string, b: string)
    ensures StripWhitespace(a + b) == StripWhitespace(a) + StripWhitespace(b)
    decreases |b|
  {
    if |b| == 0 {
      assert a + b == a;
    } else {
      var b' := b[..|b| - 1];
      assert (a + b)[..|a + b| - 1] == a + b';
      assert (a + b)[|a + b| - 1] == b[|b| - 1];
      StripWhitespaceAppend(a, b');
    }
  }

  lemma {:induction false} StripWhitespaceKeepsSolid(s: string)
    requires forall i :: 0 <= i < |s| ==> !IsRegexSpace(s[i])
    ensures StripWhitespace(s) == s
  {
    if |s| > 0 {
      StripWhitespaceKeepsSolid(s[..|s| - 1]);
    }
  }

  /** `s.lastIndexOf(c)`. */
  function LastIndexOf(s: string, c: char): (r: int)
    ensures -1 <= r < |s|
    ensures r == -1 <==> c !in s
    ensures r >= 0 ==> s[r] == c && c !in s[r + 1..]
  {
    if |s| == 0 then -1
    else if s[|s| - 1] == c then |s| - 1
    else
      assert s == s[..|s| - 1] + [s[|s| - 1]];
      LastIndexOf(s[..|s| - 1], c)
  }

  /** An occurrence with none after it is the last one. */
  lemma LastIndexOfAt(s: string, i: int)
    requires 0 <= i < |s| && s[i] == '.' && '.' !in s[i + 1..]
    ensures LastIndexOf(s, '.') == i
  {
  }

  function DigitChar(d: int): (c: char)
    requires 0 <= d < 10
    ensures '0' <= c <= '9' && c as int - '0' as int == d
  {
    ('0' as int + d) as char
  }

  predicate IsDecimal(s: string) {
    forall i :: 0 <= i < |s| ==> '0' <= s[i] <= '9'
  }

  /** `Integer.toString(n)` for a non-negative `n`: no sign, no leading zero. */
  function NatToDecimal(n: nat): (s: string)
    ensures 1 <= |s| && IsDecimal(s)
    ensures |s| == 1 || s[0] != '0'
    ensures n > 0 ==> s[0] != '0'
  {
    if n < 10 then [DigitChar(n)] else NatToDecimal(n / 10) + [DigitChar(n % 10)]
  }

  /** The value of a string of decimal digits, read back. */
  function DecimalValue(s: string): nat
    requires IsDecimal(s)
  {
    if |s| == 0 then 0
    else DecimalValue(s[..|s| - 1]) * 10 + (s[|s| - 1] as int - '0' as int)
  }

  lemma {:induction false} DecimalRoundTrip(n: nat)
    ensures DecimalValue(NatToDecimal(n)) == n
  {
    if n >= 10 {
      var s := NatToDecimal(n);
      assert s[..|s| - 1] == NatToDecimal(n / 10);
      DecimalRoundTrip(n / 10);
    }
  }

  lemma DecimalInjective(j: nat, k: nat)
    requires NatToDecimal(j) == NatToDecimal(k)
    ensures j == k
  {
    DecimalRoundTrip(j);
    DecimalRoundTrip(k);
  }
}
