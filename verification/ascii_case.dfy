/** ASCII-only models of Kotlin's `Char`/`String` case operations
    (`toLowerCase`, `toUpperCase`, `capitalize`) and of `isBlank`.
    Characters other than the ASCII letters are left unchanged. */
module AsciiCase {

  predicate IsUpper(c: char) { 'A' <= c <= 'Z' }

  predicate IsLower(c: char) { 'a' <= c <= 'z' }

  /** `Char.toLowerCase()` on ASCII letters. */
  function ToLower(c: char): (r: char)
    ensures !IsUpper(r)
    ensures IsUpper(c) ==> IsLower(r) && r as int == c as int + 32
    ensures !IsUpper(c) ==> r == c
  {
    if IsUpper(c) then (c as int + 32) as char else c
  }

  /** `Char.toUpperCase()` on ASCII letters. */
  function ToUpper(c: char): (r: char)
    ensures !IsLower(r)
    ensures IsLower(c) ==> IsUpper(r) && r as int == c as int - 32
    ensures !IsLower(c) ==> r == c
  {
    if IsLower(c) then (c as int - 32) as char else c
  }

  /** Two characters are equal up to ASCII letter case. */
  predicate SameLetter(a: char, b: char) { ToLower(a) == ToLower(b) }

  /** Two strings are equal up to ASCII letter case, position by position. */
  predicate SameLetters(a: string, b: string)
  {
    |a| == |b| && forall k :: 0 <= k < |a| ==> SameLetter(a[k], b[k])
  }

  lemma SameLettersReflexive(s: string)
    ensures SameLetters(s, s)
  {
  }

  /** Agreement up to letter case is kept by concatenation. */
  lemma SameLettersAppend(a: string, b: string, c: string, d: string)
    requires SameLetters(a, b) && SameLetters(c, d)
    ensures SameLetters(a + c, b + d)
  {
    forall k | 0 <= k < |a + c|
      ensures SameLetter((a + c)[k], (b + d)[k])
    {
      if k >= |a| {
        assert (a + c)[k] == c[k - |a|] && (b + d)[k] == d[k - |a|];
      }
    }
  }

  predicate NoUpper(s: string) { forall k :: 0 <= k < |s| ==> !IsUpper(s[k]) }

  predicate NoLower(s: string) { forall k :: 0 <= k < |s| ==> !IsLower(s[k]) }

  /** `String.toLowerCase()`: same letters, none of them uppercase. */
  function LowerString(s: string): (r: string)
    ensures SameLetters(r, s) && NoUpper(r)
  {
    seq(|s|, k requires 0 <= k < |s| => ToLower(s[k]))
  }

  /** `String.toUpperCase()`: same letters, none of them lowercase. */
  function UpperString(s: string): (r: string)
    ensures SameLetters(r, s) && NoLower(r)
  {
    seq(|s|, k requires 0 <= k < |s| => ToUpper(s[k]))
  }

  /** `String.capitalize()`: the first character uppercased, the rest untouched;
      the empty string is returned as it is. */
  function Capitalize(s: string): (r: string)
    ensures SameLetters(r, s)
    ensures |s| > 0 ==> !IsLower(r[0]) && r[1..] == s[1..]
    ensures |s| == 0 ==> r == s
  {
    if |s| == 0 then s else [ToUpper(s[0])] + s[1..]
  }

  /** Characters for which the JVM's `Char.isWhitespace` holds in the ASCII
      range: tab, line feed, vertical tab, form feed, carriage return, the four
      information separators 0x1C-0x1F, and space. */
  predicate IsAsciiWhitespace(c: char)
  {
    c == ' ' || '\U{9}' <= c <= '\U{D}' || '\U{1C}' <= c <= '\U{1F}'
  }

  /** `CharSequence.isBlank()`: empty or made only of whitespace. */
  predicate IsBlank(s: string)
  {
    forall k :: 0 <= k < |s| ==> IsAsciiWhitespace(s[k])
  }

  /** Lowercasing leaves a string without uppercase letters unchanged. */
  lemma LowerStringIdentity(s: string)
    requires NoUpper(s)
    ensures LowerString(s) == s
  {
  }

  /** Uppercasing leaves a string without lowercase letters unchanged. */
  lemma UpperStringIdentity(s: string)
    requires NoLower(s)
    ensures UpperString(s) == s
  {
  }

  /** A character with no lowercase is determined by its letter. */
  lemma SameLetterUnique(a: char, b: char)
    requires SameLetter(a, b)
    ensures !IsLower(a) && !IsLower(b) ==> a == b
    ensures !IsUpper(a) && !IsUpper(b) ==> a == b
  {
  }

  /** Capitalising leaves a string whose first character is not lowercase
      unchanged. */
  lemma CapitalizeIdentity(s: string)
    requires |s| == 0 || !IsLower(s[0])
    ensures Capitalize(s) == s
  {
  }
}
