/**
 * The two line shapes of an SRT file and the digit table, as fixed by the
 * `regex` module of the fixer. The regular expressions are stated directly
 * as predicates over a line; both are anchored at the start and the end of
 * the line (`^ ... $` without multi-line mode).
 */
module Patterns {
  import opened Text

  /** The regex class `\d` in Unicode mode: a character of general category
      Nd (decimal number), as listed by Unicode 15.0. Every range is a run of
      ten consecutive digits, zero first, except the mathematical digits,
      which are five such runs side by side. */
  predicate IsDecimalDigit(c: char)
  {
    var n := c as int;
    (0x0030 <= n <= 0x0039) || (0x0660 <= n <= 0x0669) || (0x06F0 <= n <= 0x06F9) ||
    (0x07C0 <= n <= 0x07C9) || (0x0966 <= n <= 0x096F) || (0x09E6 <= n <= 0x09EF) ||
    (0x0A66 <= n <= 0x0A6F) || (0x0AE6 <= n <= 0x0AEF) || (0x0B66 <= n <= 0x0B6F) ||
    (0x0BE6 <= n <= 0x0BEF) || (0x0C66 <= n <= 0x0C6F) || (0x0CE6 <= n <= 0x0CEF) ||
    (0x0D66 <= n <= 0x0D6F) || (0x0DE6 <= n <= 0x0DEF) || (0x0E50 <= n <= 0x0E59) ||
    (0x0ED0 <= n <= 0x0ED9) || (0x0F20 <= n <= 0x0F29) || (0x1040 <= n <= 0x1049) ||
    (0x1090 <= n <= 0x1099) || (0x17E0 <= n <= 0x17E9) || (0x1810 <= n <= 0x1819) ||
    (0x1946 <= n <= 0x194F) || (0x19D0 <= n <= 0x19D9) || (0x1A80 <= n <= 0x1A89) ||
    (0x1A90 <= n <= 0x1A99) || (0x1B50 <= n <= 0x1B59) || (0x1BB0 <= n <= 0x1BB9) ||
    (0x1C40 <= n <= 0x1C49) || (0x1C50 <= n <= 0x1C59) || (0xA620 <= n <= 0xA629) ||
    (0xA8D0 <= n <= 0xA8D9) || (0xA900 <= n <= 0xA909) || (0xA9D0 <= n <= 0xA9D9) ||
    (0xA9F0 <= n <= 0xA9F9) || (0xAA50 <= n <= 0xAA59) || (0xABF0 <= n <= 0xABF9) ||
    (0xFF10 <= n <= 0xFF19) || (0x104A0 <= n <= 0x104A9) || (0x10D30 <= n <= 0x10D39) ||
    (0x11066 <= n <= 0x1106F) || (0x110F0 <= n <= 0x110F9) || (0x11136 <= n <= 0x1113F) ||
    (0x111D0 <= n <= 0x111D9) || (0x112F0 <= n <= 0x112F9) || (0x11450 <= n <= 0x11459) ||
    (0x114D0 <= n <= 0x114D9) || (0x11650 <= n <= 0x11659) || (0x116C0 <= n <= 0x116C9) ||
    (0x11730 <= n <= 0x11739) || (0x118E0 <= n <= 0x118E9) || (0x11950 <= n <= 0x11959) ||
    (0x11C50 <= n <= 0x11C59) || (0x11D50 <= n <= 0x11D59) || (0x11DA0 <= n <= 0x11DA9) ||
    (0x11F50 <= n <= 0x11F59) || (0x16A60 <= n <= 0x16A69) || (0x16AC0 <= n <= 0x16AC9) ||
    (0x16B50 <= n <= 0x16B59) || (0x1D7CE <= n <= 0x1D7FF) || (0x1E140 <= n <= 0x1E149) ||
    (0x1E2F0 <= n <= 0x1E2F9) || (0x1E4F0 <= n <= 0x1E4F9) || (0x1E950 <= n <= 0x1E959) ||
    (0x1FBF0 <= n <= 0x1FBF9)
  }

  /** One of the ten ASCII digits `'0'`..`'9'`. */
  predicate IsAsciiDigit(c: char)
  {
    '0' <= c <= '9'
  }

  /** No character of `s` is an ASCII digit. */
  predicate NoAsciiDigit(s: seq<char>)
  {
    forall i :: 0 <= i < |s| ==> !IsAsciiDigit(s[i])
  }

  /** `\d+` without the `+`: every character is a decimal digit. */
  predicate AllDecimalDigits(s: seq<char>)
  {
    forall i :: 0 <= i < |s| ==> IsDecimalDigit(s[i])
  }

  /** `(\d{2}):(\d{2}):(\d{2}),(\d{3})`: one clock reading, 12 characters. */
  predicate IsClock(s: seq<char>)
  {
    && |s| == 12
    && AllDecimalDigits(s[0..2]) && s[2] == ':'
    && AllDecimalDigits(s[3..5]) && s[5] == ':'
    && AllDecimalDigits(s[6..8]) && s[8] == ','
    && AllDecimalDigits(s[9..12])
  }

  /** `STR_TIMESTAMP_PATTERN`: two clock readings joined by `-->` with one
      whitespace character on each side, and nothing else on the line. */
  predicate IsTimestamp(l: seq<char>)
  {
    && |l| == 29
    && IsClock(l[..12])
    && IsWhitespace(l[12])
    && l[13..16] == "-->"
    && IsWhitespace(l[16])
    && IsClock(l[17..])
  }

  /** `STR_LINE_NUM_PATTERN` (`^\d+$`): one or more decimal digits and
      nothing else. */
  predicate IsLineNumber(l: seq<char>)
  {
    |l| > 0 && AllDecimalDigits(l)
  }

  /** `PERSIAN_NUMBERS`: each ASCII digit paired with its Extended
      Arabic-Indic (Persian) digit. */
  const PersianNumbers: seq<(char, char)> := [
    ('0', '\U{06F0}'),
    ('1', '\U{06F1}'),
    ('2', '\U{06F2}'),
    ('3', '\U{06F3}'),
    ('4', '\U{06F4}'),
    ('5', '\U{06F5}'),
    ('6', '\U{06F6}'),
    ('7', '\U{06F7}'),
    ('8', '\U{06F8}'),
    ('9', '\U{06F9}')
  ]

  /** The numeric value of an ASCII digit, which is also its row in
      `PersianNumbers`. */
  function DigitValue(c: char): (d: nat)
    requires IsAsciiDigit(c)
    ensures d < |PersianNumbers| && PersianNumbers[d].0 == c
  {
    PersianNumbersShape(c as int - '0' as int);
    c as int - '0' as int
  }

  /** Row `d` of the table pairs ASCII digit `d` with the Persian digit
      `d`, code point U+06F0 + `d`; no Persian digit is an ASCII digit, and
      every Persian digit is a decimal digit. */
  lemma PersianNumbersShape(d: int)
    requires 0 <= d < |PersianNumbers|
    ensures PersianNumbers[d].0 as int == '0' as int + d
    ensures PersianNumbers[d].1 as int == 0x06F0 + d
    ensures !IsAsciiDigit(PersianNumbers[d].1) && IsDecimalDigit(PersianNumbers[d].1)
  {
    assert d == 0 || d == 1 || d == 2 || d == 3 || d == 4 || d == 5 || d == 6 || d == 7 || d == 8 || d == 9;
  }
}
