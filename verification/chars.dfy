/**
 * Character classes and character maps used by the search engine.
 *
 * The engine relies on JavaScript's `\s`, `\p{L}`, `\p{N}`, `toLowerCase` and on
 * Unicode NFD decomposition followed by removal of the combining marks
 * U+0300..U+036F. Here they are concrete tables: `\s` exactly as JavaScript
 * defines it, the other classes restricted to the Latin script (ASCII,
 * Latin-1 Supplement, Latin Extended-A), which holds every letter of the
 * Latvian and English texts.
 */
module Chars {

  /** JavaScript's `\s` (WhiteSpace and LineTerminator), also the set `trim` removes. */
  predicate IsWhite(c: char) {
    var n := c as int;
    (0x09 <= n <= 0x0D) || n == 0x20 || n == 0xA0 || n == 0x1680
    || (0x2000 <= n <= 0x200A) || n == 0x2028 || n == 0x2029
    || n == 0x202F || n == 0x205F || n == 0x3000 || n == 0xFEFF
  }

  /** The no-break space U+00A0, which `bookKey` turns into a space before anything else. */
  const Nbsp: char := '\U{A0}'

  /** A combining diacritical mark U+0300..U+036F, the range `bookKey` deletes after NFD decomposition. */
  predicate IsMark(c: char) {
    0x300 <= c as int <= 0x36F
  }

  predicate IsNotMark(c: char) {
    !IsMark(c)
  }

  /** `\p{L}`, on the Latin script. */
  predicate IsLetter(c: char) {
    var n := c as int;
    ('a' <= c <= 'z') || ('A' <= c <= 'Z') || n == 0xAA || n == 0xB5 || n == 0xBA
    || (0xC0 <= n <= 0x17F && n != 0xD7 && n != 0xF7)
  }

  /** `\p{N}`, on the Latin script: digits, superscripts and vulgar fractions. */
  predicate IsNumber(c: char) {
    var n := c as int;
    ('0' <= c <= '9') || n == 0xB2 || n == 0xB3 || n == 0xB9 || (0xBC <= n <= 0xBE)
  }

  /** The characters that `norm` keeps: `[\p{L}\p{N}']`. */
  predicate IsWordChar(c: char) {
    IsLetter(c) || IsNumber(c) || c == '\''
  }

  /** Every other character: a maximal run of them becomes one space in `norm`. */
  predicate IsNonWord(c: char) {
    !IsWordChar(c)
  }

  /** A whitespace character is never a word character. */
  lemma WhiteIsNonWord(c: char)
    ensures IsWhite(c) ==> IsNonWord(c)
  {
  }

  /** Right single quotation mark U+2019, which `norm` rewrites to an ASCII apostrophe. */
  const RightQuote: char := '\U{2019}'

  /**
   * `toLowerCase` on one character: ASCII, Latin-1 and the Latin Extended-A case
   * pairs, with Ÿ (U+0178) going to ÿ. İ (U+0130), which `toLowerCase` turns
   * into i followed by U+0307, goes to i.
   */
  function Lower(c: char): (r: char)
    ensures IsWhite(r) <==> IsWhite(c)
    ensures IsMark(r) <==> IsMark(c)
    ensures IsWordChar(r) <==> IsWordChar(c)
  {
    var n := c as int;
    if 'A' <= c <= 'Z' then (n + 32) as char
    else if 0xC0 <= n <= 0xDE && n != 0xD7 then (n + 32) as char
    else if (0x100 <= n <= 0x12F || 0x132 <= n <= 0x137 || 0x14A <= n <= 0x177) && n % 2 == 0 then (n + 1) as char
    else if (0x139 <= n <= 0x148 || 0x179 <= n <= 0x17E) && n % 2 == 1 then (n + 1) as char
    else if n == 0x178 then '\U{FF}'
    else if n == 0x130 then 'i'
    else c
  }

  /**
   * The base letter of a lower-case precomposed Latin letter: what remains of it
   * after NFD decomposition and removal of its combining marks (ē -> e, š -> s,
   * ķ -> k). Letters without a canonical decomposition (æ, ø, đ, ł, ...) and all
   * other characters are unchanged.
   */
  function BaseLetter(c: char): (r: char)
    ensures r == c || 'a' <= r <= 'z'
    ensures IsWhite(r) <==> IsWhite(c)
    ensures IsMark(r) <==> IsMark(c)
  {
    var n := c as int;
    if 0xE0 <= n <= 0xE5 then 'a'
    else if n == 0xE7 then 'c'
    else if 0xE8 <= n <= 0xEB then 'e'
    else if 0xEC <= n <= 0xEF then 'i'
    else if n == 0xF1 then 'n'
    else if 0xF2 <= n <= 0xF6 then 'o'
    else if 0xF9 <= n <= 0xFC then 'u'
    else if n == 0xFD || n == 0xFF then 'y'
    else if 0x101 <= n <= 0x105 && n % 2 == 1 then 'a'
    else if 0x107 <= n <= 0x10D && n % 2 == 1 then 'c'
    else if n == 0x10F then 'd'
    else if 0x113 <= n <= 0x11B && n % 2 == 1 then 'e'
    else if 0x11D <= n <= 0x123 && n % 2 == 1 then 'g'
    else if n == 0x125 then 'h'
    else if 0x129 <= n <= 0x12F && n % 2 == 1 then 'i'
    else if n == 0x135 then 'j'
    else if n == 0x137 then 'k'
    else if 0x13A <= n <= 0x13E && n % 2 == 0 then 'l'
    else if 0x144 <= n <= 0x148 && n % 2 == 0 then 'n'
    else if 0x14D <= n <= 0x151 && n % 2 == 1 then 'o'
    else if 0x155 <= n <= 0x159 && n % 2 == 1 then 'r'
    else if 0x15B <= n <= 0x161 && n % 2 == 1 then 's'
    else if 0x163 <= n <= 0x165 && n % 2 == 1 then 't'
    else if 0x169 <= n <= 0x173 && n % 2 == 1 then 'u'
    else if n == 0x175 then 'w'
    else if n == 0x177 then 'y'
    else if 0x17A <= n <= 0x17E && n % 2 == 0 then 'z'
    else c
  }

  /** What `bookKey` makes of one character that is not a combining mark: lower-cased, then folded to its base letter. */
  function KeyChar(c: char): (r: char)
    ensures IsWhite(r) <==> IsWhite(c)
    ensures IsMark(r) <==> IsMark(c)
  {
    BaseLetter(Lower(c))
  }

  /** Lower-casing twice is lower-casing once. */
  lemma LowerIdempotent(c: char)
    ensures Lower(Lower(c)) == Lower(c)
  {
  }

  lemma AsciiLowerFixed(c: char)
    requires 'a' <= c <= 'z'
    ensures Lower(c) == c && BaseLetter(c) == c
  {
  }

  /** A folded character folds to itself: the reason `BookKey` is idempotent. */
  lemma KeyCharFixed(c: char)
    ensures KeyChar(KeyChar(c)) == KeyChar(c)
  {
    var k := KeyChar(c);
    if k == Lower(c) {
      LowerIdempotent(c);
    } else {
      AsciiLowerFixed(k);
    }
  }

  /** The Latvian capitals lower-case to their small letters. */
  lemma LatvianLower()
    ensures Lower('Ā') == 'ā' && Lower('Č') == 'č' && Lower('Ē') == 'ē' && Lower('Ģ') == 'ģ'
    ensures Lower('Ī') == 'ī' && Lower('Ķ') == 'ķ' && Lower('Ļ') == 'ļ' && Lower('Ņ') == 'ņ'
    ensures Lower('Š') == 'š' && Lower('Ū') == 'ū' && Lower('Ž') == 'ž'
  {
  }

  /** The Latvian small letters with diacritics are already lower case. */
  lemma LatvianSmallFixed()
    ensures Lower('ā') == 'ā' && Lower('č') == 'č' && Lower('ē') == 'ē' && Lower('ģ') == 'ģ'
    ensures Lower('ī') == 'ī' && Lower('ķ') == 'ķ' && Lower('ļ') == 'ļ' && Lower('ņ') == 'ņ'
    ensures Lower('š') == 'š' && Lower('ū') == 'ū' && Lower('ž') == 'ž'
  {
  }

  /** The base letters of the Latvian small letters with diacritics. */
  lemma LatvianBases()
    ensures BaseLetter('ā') == 'a' && BaseLetter('č') == 'c' && BaseLetter('ē') == 'e' && BaseLetter('ģ') == 'g'
    ensures BaseLetter('ī') == 'i' && BaseLetter('ķ') == 'k' && BaseLetter('ļ') == 'l' && BaseLetter('ņ') == 'n'
    ensures BaseLetter('š') == 's' && BaseLetter('ū') == 'u' && BaseLetter('ž') == 'z'
  {
  }

  /** A capital and its small letter fold to the small letter's base. */
  lemma FoldPair(capital: char, small: char)
    requires Lower(capital) == small && Lower(small) == small
    ensures KeyChar(capital) == BaseLetter(small) && KeyChar(small) == BaseLetter(small)
  {
  }

  /**
   * The Latvian letters with diacritics, small and capital, fold to their base
   * letters: a `book` parameter typed without diacritics finds its book.
   */
  lemma LatvianFolds()
    ensures KeyChar('ā') == 'a' && KeyChar('č') == 'c' && KeyChar('ē') == 'e' && KeyChar('ģ') == 'g'
    ensures KeyChar('ī') == 'i' && KeyChar('ķ') == 'k' && KeyChar('ļ') == 'l' && KeyChar('ņ') == 'n'
    ensures KeyChar('š') == 's' && KeyChar('ū') == 'u' && KeyChar('ž') == 'z'
    ensures KeyChar('Ā') == 'a' && KeyChar('Č') == 'c' && KeyChar('Ē') == 'e' && KeyChar('Ģ') == 'g'
    ensures KeyChar('Ī') == 'i' && KeyChar('Ķ') == 'k' && KeyChar('Ļ') == 'l' && KeyChar('Ņ') == 'n'
    ensures KeyChar('Š') == 's' && KeyChar('Ū') == 'u' && KeyChar('Ž') == 'z'
  {
    LatvianLower();
    LatvianSmallFixed();
    LatvianBases();
    FoldPair('Ā', 'ā');
    FoldPair('Č', 'č');
    FoldPair('Ē', 'ē');
    FoldPair('Ģ', 'ģ');
    FoldPair('Ī', 'ī');
    FoldPair('Ķ', 'ķ');
    FoldPair('Ļ', 'ļ');
    FoldPair('Ņ', 'ņ');
    FoldPair('Š', 'š');
    FoldPair('Ū', 'ū');
    FoldPair('Ž', 'ž');
  }

  /** The two Latin Extended-A capitals whose small form lies elsewhere fold like the other letters. */
  lemma IrregularCapitals()
    ensures Lower('\U{178}') == '\U{FF}' && KeyChar('\U{178}') == 'y'
    ensures Lower('\U{130}') == 'i' && KeyChar('\U{130}') == 'i'
  {
  }

  /** `norm`'s apostrophe step: U+2019 becomes `'`. */
  function Apostrophe(c: char): (r: char)
    ensures IsWhite(r) <==> IsWhite(c)
    ensures r != RightQuote
  {
    if c == RightQuote then '\'' else c
  }
}
