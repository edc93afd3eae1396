/** The part of Python's `str.lower()` that the task labels need. */
module Text {

  /** Upper-case letters this model knows how to lower: ASCII A-Z and the
      Cyrillic capitals U+0400..U+042F (which include every letter of the
      Russian priority and status labels). */
  predicate IsUpper(c: char) {
    ('A' <= c <= 'Z') || ('Ѐ' <= c <= 'Я')
  }

  /** Lower-cases one character; every other character is left unchanged. */
  function LowerChar(c: char): (r: char)
    ensures !IsUpper(r)
    ensures !IsUpper(c) ==> r == c
  {
    if 'A' <= c <= 'Z' then (c as int + 32) as char
    else if 'А' <= c <= 'Я' then (c as int + 32) as char
    else if 'Ѐ' <= c <= 'Џ' then (c as int + 80) as char
    else c
  }

  /** `s.lower()`, character by character. */
  function Lower(s: string): (r: string)
    ensures |r| == |s|
    ensures forall i | 0 <= i < |s| :: r[i] == LowerChar(s[i])
  {
    if |s| == 0 then [] else [LowerChar(s[0])] + Lower(s[1..])
  }

  /** A string that is already lower case is its own lower-case form. */
  lemma {:induction false} LowerOfLowerCase(s: string)
    requires forall i | 0 <= i < |s| :: !IsUpper(s[i])
    ensures Lower(s) == s
  {
    if |s| > 0 {
      LowerOfLowerCase(s[1..]);
    }
  }

  /** Lower-casing twice is the same as lower-casing once. */
  lemma LowerIdempotent(s: string)
    ensures Lower(Lower(s)) == Lower(s)
  {
    LowerOfLowerCase(Lower(s));
  }
}
