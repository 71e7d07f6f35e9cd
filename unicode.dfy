/**
  The parts of Unicode that the tools rely on, restricted to what this model
  covers: ASCII and the Latin-1 letters.  Case mapping, canonical and
  compatibility decomposition and the combining-mark test are given as small
  tables; characters outside them are left unchanged.
 */
module Unicode {

  /** Which white-space definition a function uses: Python's `str.isspace`
      (and `\s` of its `re` module) or Rust's `char::is_whitespace` (and `\s`
      of the `regex` crate).  Python also counts U+001C..U+001F. */
  datatype Space = Py | Rust

  predicate IsSpace(k: Space, c: char) {
    || c == ' ' || ('\t' <= c <= '\r')
    || c == '\U{0085}' || c == '\U{00A0}' || c == '\U{1680}'
    || ('\U{2000}' <= c <= '\U{200A}')
    || c == '\U{2028}' || c == '\U{2029}' || c == '\U{202F}' || c == '\U{205F}' || c == '\U{3000}'
    || (k == Py && '\U{001C}' <= c <= '\U{001F}')
  }

  predicate IsAscii(c: char) { c < '\U{0080}' }
  predicate IsAsciiDigit(c: char) { '0' <= c <= '9' }
  predicate IsAsciiLower(c: char) { 'a' <= c <= 'z' }
  predicate IsAsciiUpper(c: char) { 'A' <= c <= 'Z' }
  predicate IsAsciiAlpha(c: char) { IsAsciiLower(c) || IsAsciiUpper(c) }
  predicate IsAsciiAlnum(c: char) { IsAsciiAlpha(c) || IsAsciiDigit(c) }

  /** `to_ascii_lowercase`: only A-Z change. */
  function AsciiLower(c: char): (r: char)
    ensures IsAsciiUpper(c) ==> IsAsciiLower(r)
    ensures !IsAsciiUpper(c) ==> r == c
  {
    if IsAsciiUpper(c) then (c as int + 32) as char else c
  }

  predicate IsLatin1Upper(c: char) { '\U{00C0}' <= c <= '\U{00DE}' && c != '\U{00D7}' }
  predicate IsLatin1Lower(c: char) { '\U{00E0}' <= c <= '\U{00FE}' && c != '\U{00F7}' }

  /** Lower-case mapping (`str.lower`, `to_lowercase`) on ASCII and Latin-1. */
  function LowerChar(c: char): (r: char)
    ensures IsAscii(c) <==> IsAscii(r)
    ensures !IsAsciiUpper(r)
    ensures IsAscii(c) ==> r == AsciiLower(c)
  {
    if IsAsciiUpper(c) || IsLatin1Upper(c) then (c as int + 32) as char else c
  }

  /** Upper-case mapping (`to_uppercase`) on ASCII and Latin-1; it can give
      two characters, as for the sharp s, and leave Latin-1, as for the
      micro sign (U+039C, the capital mu). */
  function UpperChars(c: char): (r: string)
    ensures |r| >= 1
    ensures IsAsciiLower(c) ==> r == [(c as int - 32) as char] && IsAsciiUpper(r[0])
    ensures IsAscii(c) && !IsAsciiLower(c) ==> r == [c]
  {
    if IsAsciiLower(c) || IsLatin1Lower(c) then [(c as int - 32) as char]
    else if c == '\U{00DF}' then "SS"
    else if c == '\U{00FF}' then "\U{0178}"
    else if c == '\U{00B5}' then "\U{039C}"
    else [c]
  }

  /** The combining diacritical marks block (general category Mn). */
  predicate IsCombiningMark(c: char) { '\U{0300}' <= c <= '\U{036F}' }

  /** Combining mark of the Latin-1 letter at offset `i` (0..31) from U+00C0
      or U+00E0; 0 when the letter does not decompose. */
  function Latin1Mark(i: int): (m: int)
    ensures m == 0 || 0x300 <= m <= 0x36F
  {
    if 0 <= i <= 5 then [0x300, 0x301, 0x302, 0x303, 0x308, 0x30A][i]
    else if i == 7 then 0x327
    else if 8 <= i <= 15 then [0x300, 0x301, 0x302, 0x308][(i - 8) % 4]
    else if i == 17 then 0x303
    else if 18 <= i <= 22 then [0x300, 0x301, 0x302, 0x303, 0x308][i - 18]
    else if 25 <= i <= 28 then [0x300, 0x301, 0x302, 0x308][i - 25]
    else if i == 29 then 0x301
    else 0
  }

  /** Offset from 'A' (or 'a') of the base letter of that Latin-1 letter. */
  function Latin1Base(i: int): (b: int)
    ensures 0 <= b < 26
  {
    if i <= 5 then 0 else if i == 7 then 2 else if i <= 11 then 4 else if i <= 15 then 8
    else if i == 17 then 13 else if i <= 22 then 14 else if i <= 28 then 20 else 24
  }

  /** Canonical (NFD) decomposition of one character: the Latin-1 letters
      with a diacritic become the base letter and its combining mark. */
  function Decompose(c: char): (r: string)
    ensures |r| == 1 || |r| == 2
    ensures |r| == 1 ==> r[0] == c
    ensures |r| == 2 ==> IsAsciiAlpha(r[0]) && IsCombiningMark(r[1]) && (IsAsciiUpper(r[0]) <==> IsLatin1Upper(c))
    ensures IsAscii(c) ==> r == [c]
    ensures IsCombiningMark(c) ==> r == [c]
  {
    if c == '\U{00FF}' then "y\U{0308}"
    else if IsLatin1Upper(c) || IsLatin1Lower(c) then
      var upper := IsLatin1Upper(c);
      var i := c as int - (if upper then 0xC0 else 0xE0);
      var m := Latin1Mark(i);
      if m == 0 then [c]
      else [((if upper then 'A' else 'a') as int + Latin1Base(i)) as char, m as char]
    else [c]
  }

  /** Compatibility (NFKD) decomposition of one character: the canonical one,
      and also the Latin-1 spacing diacritics (a space and the combining
      mark), the no-break space, the ordinal indicators, the superscript
      digits, the micro sign (the Greek small mu) and the vulgar fractions
      (the digits around U+2044 FRACTION SLASH). */
  function CompatDecompose(c: char): (r: string)
    ensures 1 <= |r| <= 3
    ensures IsAscii(c) ==> r == [c]
    ensures c == '\U{00B4}' ==> r == " \U{0301}"
  {
    if c == '\U{00A0}' then " "
    else if c == '\U{00A8}' then " \U{0308}"
    else if c == '\U{00AA}' then "a"
    else if c == '\U{00AF}' then " \U{0304}"
    else if c == '\U{00B2}' then "2"
    else if c == '\U{00B3}' then "3"
    else if c == '\U{00B4}' then " \U{0301}"
    else if c == '\U{00B8}' then " \U{0327}"
    else if c == '\U{00B9}' then "1"
    else if c == '\U{00BA}' then "o"
    else if c == '\U{00B5}' then "\U{03BC}"
    else if c == '\U{00BC}' then "1\U{2044}4"
    else if c == '\U{00BD}' then "1\U{2044}2"
    else if c == '\U{00BE}' then "3\U{2044}4"
    else Decompose(c)
  }

  /** Number of bytes of the character in UTF-8. */
  function Utf8Len(c: char): (n: nat)
    ensures 1 <= n <= 4
    ensures n == 1 <==> IsAscii(c)
  {
    if c < '\U{0080}' then 1 else if c < '\U{0800}' then 2 else if c <= '\U{FFFF}' then 3 else 4
  }
}
