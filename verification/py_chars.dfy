/** Python's default `str` character classes, restricted to ASCII code points.

    `\s` in a `str` pattern, `str.isspace`, `str.strip` and `str.split` all use the same
    whitespace class; restricted to ASCII it is TAB..CR (9-13), the four separators
    0x1C-0x1F and the space. `\d` is `0`-`9`, and `str.lower` is modelled on `A`-`Z` only. */
module PyChars {

  /** Python's default `str` whitespace on ASCII code points: `\t \n \v \f \r`, `\x1c`-`\x1f`
      and `' '` (`re.ASCII` would leave out `\x1c`-`\x1f`). */
  predicate IsSpace(c: char) {
    c == ' ' || ('\t' <= c <= '\r') || ('\U{1C}' <= c <= '\U{1F}')
  }

  predicate IsDigit(c: char) {
    '0' <= c <= '9'
  }

  predicate IsLowerLetter(c: char) {
    'a' <= c <= 'z'
  }

  predicate IsUpperLetter(c: char) {
    'A' <= c <= 'Z'
  }

  predicate IsLetter(c: char) {
    IsLowerLetter(c) || IsUpperLetter(c)
  }

  /** The character class `[\x00-\x1f\x7f-\x9f]`: C0 and C1 control characters. */
  predicate IsControl(c: char) {
    c <= '\U{1F}' || ('\U{7F}' <= c <= '\U{9F}')
  }

  /** `str.lower` on one character: ASCII capitals become small letters, the rest is kept. */
  function Lower(c: char): (r: char)
    ensures IsUpperLetter(c) ==> IsLowerLetter(r) && r as int == c as int + 32
    ensures !IsUpperLetter(c) ==> r == c
  {
    if IsUpperLetter(c) then (c as int + 32) as char else c
  }
}
