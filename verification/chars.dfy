/** Character classes and per-character mappings used by the sanitisers.

    JavaScript strings are sequences of UTF-16 code units; here a string is a
    sequence of Unicode scalar values, which agrees with the source on every
    character the pipeline distinguishes (all of them are in the BMP). */
module Chars {

  /** What `String.prototype.trim` removes and what the regular-expression
      class `\s` matches: ECMAScript WhiteSpace plus LineTerminator. */
  predicate IsSpace(c: char) {
    || c == '\t' || c == '\n' || c == '\U{B}' || c == '\U{C}' || c == '\r'
    || c == ' ' || c == '\U{A0}' || c == '\U{1680}'
    || ('\U{2000}' <= c <= '\U{200A}')
    || c == '\U{2028}' || c == '\U{2029}' || c == '\U{202F}' || c == '\U{205F}'
    || c == '\U{3000}' || c == '\U{FEFF}'
  }

  predicate IsAsciiUpper(c: char) { 'A' <= c <= 'Z' }
  predicate IsAsciiLower(c: char) { 'a' <= c <= 'z' }
  predicate IsDigit(c: char) { '0' <= c <= '9' }

  /** Upper-case Latin-1 letters that have a lower-case partner 0x20 above. */
  predicate IsLatin1Upper(c: char) { '\U{C0}' <= c <= '\U{DE}' && c != '\U{D7}' }

  /** The class `[a-z0-9_]` every sanitised identifier is made of. */
  predicate IsIdChar(c: char) { IsAsciiLower(c) || IsDigit(c) || c == '_' }

  /** The class `[A-Za-z0-9_]`. */
  predicate IsWordChar(c: char) { IsAsciiUpper(c) || IsIdChar(c) }

  /** The block U+0300..U+036F of combining diacritical marks. */
  predicate IsCombiningMark(c: char) { '\U{300}' <= c <= '\U{36F}' }

  predicate IsUnderscore(c: char) { c == '_' }

  /** `toLowerCase` on one character, for the ASCII and Latin-1 letters; every
      other character is left as it is. */
  function ToLowerChar(c: char): (r: char)
    ensures !IsAsciiUpper(r) && !IsLatin1Upper(r)
    ensures !IsAsciiUpper(c) && !IsLatin1Upper(c) ==> r == c
    ensures IsIdChar(r) <==> IsIdChar(c) || IsAsciiUpper(c)
  {
    if IsAsciiUpper(c) || IsLatin1Upper(c) then (c as int + 0x20) as char else c
  }

  /** Base letters of the canonical decompositions of U+00C0..U+00DF and
      U+00E0..U+00FF, one per offset; '*' marks a letter with no decomposition. */
  const UpperBases: string := "AAAAAA*CEEEEIIII*NOOOOO**UUUUY**"
  const LowerBases: string := "aaaaaa*ceeeeiiii*nooooo**uuuuy*y"
  /** The combining mark that follows the base letter at the same offset. */
  const Marks: seq<char> := [
    '\U{300}', '\U{301}', '\U{302}', '\U{303}', '\U{308}', '\U{30A}', '*', '\U{327}',
    '\U{300}', '\U{301}', '\U{302}', '\U{308}', '\U{300}', '\U{301}', '\U{302}', '\U{308}',
    '*', '\U{303}', '\U{300}', '\U{301}', '\U{302}', '\U{303}', '\U{308}', '*',
    '*', '\U{300}', '\U{301}', '\U{302}', '\U{308}', '\U{301}', '*', '\U{308}']

  /** Canonical decomposition (NFD) of one character, for the Latin-1 letters. */
  function Decompose(c: char): (r: seq<char>)
    ensures 1 <= |r| <= 2
    ensures c < '\U{C0}' ==> r == [c]
  {
    if '\U{C0}' <= c <= '\U{DF}' && UpperBases[c as int - 0xC0] != '*' then
      [UpperBases[c as int - 0xC0], Marks[c as int - 0xC0]]
    else if '\U{E0}' <= c <= '\U{FF}' && LowerBases[c as int - 0xE0] != '*' then
      [LowerBases[c as int - 0xE0], Marks[c as int - 0xE0]]
    else
      [c]
  }
}
