/**
 * The pieces of Python's `re` behaviour that both name cleaners rely on:
 * substitution over a character class, the device-name alternation
 * `(CON|PRN|AUX|NUL|COM\d|LPT\d)` under IGNORECASE, and what `$` matches.
 * Case folding and `\d` are ASCII here (see README, "Left out").
 */
module Text {

  /** ASCII upper-casing; every other character is left alone. */
  function AsciiUpper(c: char): char
  {
    if 'a' <= c <= 'z' then (c as int - 32) as char else c
  }

  predicate IsAsciiDigit(c: char)
  {
    '0' <= c <= '9'
  }

  /** `s` matches the upper-case ASCII word `word` under IGNORECASE. */
  predicate MatchesIgnoreCase(s: string, word: string)
  {
    |s| == |word| && forall i :: 0 <= i < |s| ==> AsciiUpper(s[i]) == word[i]
  }

  /** `stem` is matched in full by `CON|PRN|AUX|NUL|COM\d|LPT\d` under IGNORECASE. */
  predicate IsReservedStem(stem: string)
  {
    || MatchesIgnoreCase(stem, "CON")
    || MatchesIgnoreCase(stem, "PRN")
    || MatchesIgnoreCase(stem, "AUX")
    || MatchesIgnoreCase(stem, "NUL")
    || (|stem| == 4 && IsAsciiDigit(stem[3]) &&
        (MatchesIgnoreCase(stem[..3], "COM") || MatchesIgnoreCase(stem[..3], "LPT")))
  }

  /** Python's `$` without MULTILINE matches at the end of `s` or just before a final newline. */
  predicate DollarMatchesAt(s: string, k: nat)
  {
    k == |s| || (k + 1 == |s| && s[k] == '\n')
  }

  /** `re.sub('[...]', '_', s)`: every character of the class becomes `_`, in place. */
  function ReplaceChars(s: string, inClass: char -> bool): (r: string)
    ensures |r| == |s|
    ensures forall i :: 0 <= i < |s| ==> r[i] == (if inClass(s[i]) then '_' else s[i])
  {
    if s == [] then []
    else [if inClass(s[0]) then '_' else s[0]] + ReplaceChars(s[1..], inClass)
  }

  /** A reserved stem is made of ASCII letters and digits only. */
  lemma ReservedStemIsAlphanumeric(stem: string, i: nat)
    requires IsReservedStem(stem) && i < |stem|
    ensures 'A' <= stem[i] <= 'Z' || 'a' <= stem[i] <= 'z' || IsAsciiDigit(stem[i])
  {
  }
}
