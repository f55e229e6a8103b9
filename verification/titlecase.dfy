/**
 Python's `str.title()`, which turns a class name such as "cell phone" into the
 reported object label "Cell Phone". Python scans left to right remembering
 whether the previous character was cased; a cased character is upper-cased
 after an uncased one and lower-cased after a cased one. Only ASCII letters
 are treated as cased here.
 */
module TitleCase {

  predicate IsUpper(c: char) { 'A' <= c <= 'Z' }

  predicate IsLower(c: char) { 'a' <= c <= 'z' }

  predicate IsCased(c: char) { IsUpper(c) || IsLower(c) }

  function ToUpper(c: char): (u: char)
    ensures IsLower(c) ==> IsUpper(u) && u as int == c as int - 32
    ensures !IsLower(c) ==> u == c
  {
    if IsLower(c) then (c as int - 32) as char else c
  }

  function ToLower(c: char): (l: char)
    ensures IsUpper(c) ==> IsLower(l) && l as int == c as int + 32
    ensures !IsUpper(c) ==> l == c
  {
    if IsUpper(c) then (c as int + 32) as char else c
  }

  /** The character `title()` writes for `c`, given whether its predecessor was cased. */
  function TitleChar(c: char, previousCased: bool): char
  {
    if previousCased then ToLower(c) else ToUpper(c)
  }

  /** The left-to-right scan, carrying the "previous character was cased" flag. */
  function TitleFrom(s: string, previousCased: bool): (t: string)
    ensures |t| == |s|
    ensures |s| > 0 ==> t[0] == TitleChar(s[0], previousCased)
    ensures forall i :: 0 < i < |s| ==> t[i] == TitleChar(s[i], IsCased(s[i - 1]))
  {
    if |s| == 0 then []
    else
      var rest := TitleFrom(s[1..], IsCased(s[0]));
      [TitleChar(s[0], previousCased)] + rest
  }

  /** `s.title()`: the label keeps its length, every word starts upper-case and
      every other letter of a word is lower-case. */
  function Title(s: string): (t: string)
    ensures |t| == |s|
    ensures forall i :: 0 <= i < |s| ==>
              t[i] == TitleChar(s[i], i > 0 && IsCased(s[i - 1]))
  {
    TitleFrom(s, false)
  }

  /** Rewriting one character changes its case only, and doing it twice with
      the same flag is the same as doing it once. */
  lemma TitleCharFacts(c: char, previousCased: bool)
    ensures ToLower(TitleChar(c, previousCased)) == ToLower(c)
    ensures IsCased(TitleChar(c, previousCased)) <==> IsCased(c)
    ensures TitleChar(TitleChar(c, previousCased), previousCased) == TitleChar(c, previousCased)
  {
  }

  /** Title-casing changes letter case only: position by position the label
      agrees with the class name up to case, and casedness is kept. */
  lemma TitleSameUpToCase(s: string)
    ensures forall i :: 0 <= i < |s| ==>
              ToLower(Title(s)[i]) == ToLower(s[i]) && (IsCased(Title(s)[i]) <==> IsCased(s[i]))
  {
    forall i | 0 <= i < |s|
      ensures ToLower(Title(s)[i]) == ToLower(s[i]) && (IsCased(Title(s)[i]) <==> IsCased(s[i]))
    {
      TitleCharFacts(s[i], i > 0 && IsCased(s[i - 1]));
    }
  }

  /** Title-casing an already title-cased label changes nothing. */
  lemma TitleIdempotent(s: string)
    ensures Title(Title(s)) == Title(s)
  {
    var t := Title(s);
    TitleSameUpToCase(s);
    forall i | 0 <= i < |s|
      ensures Title(t)[i] == t[i]
    {
      TitleCharFacts(s[i], i > 0 && IsCased(s[i - 1]));
    }
  }
}
