/** Character classes and the ASCII part of `String.prototype.toLowerCase`. */
module Text {

  predicate IsLower(c: char) { 'a' <= c <= 'z' }

  predicate IsUpper(c: char) { 'A' <= c <= 'Z' }

  /** The character class `[a-zA-Z]`. */
  predicate IsLetter(c: char) { IsLower(c) || IsUpper(c) }

  /** The regular expression `^[a-zA-Z]+$`: one or more ASCII letters and nothing else. */
  predicate AllLetters(s: string) {
    |s| > 0 && forall i :: 0 <= i < |s| ==> IsLetter(s[i])
  }

  /** A non-empty word made of lower-case ASCII letters only. */
  predicate IsLowerWord(s: string) {
    |s| > 0 && forall i :: 0 <= i < |s| ==> IsLower(s[i])
  }

  /** U+212A KELVIN SIGN, the one non-ASCII character whose lower case is an ASCII letter ('k'). */
  const KelvinSign: char := '\U{212A}'

  /**
   * Lower-cases one character. ASCII upper case moves to lower case, the Kelvin sign becomes
   * 'k'; every other character is kept (the other non-ASCII case mappings are not modelled,
   * and none of them produces a letter a-z).
   */
  function LowerChar(c: char): (d: char)
    ensures IsLower(d) <==> IsLetter(c) || c == KelvinSign
    ensures IsLetter(c) ==> IsLower(d) && (d == c || d as int == c as int + 32)
    ensures !IsUpper(c) && c != KelvinSign ==> d == c
  {
    if IsUpper(c) then (c as int + 32) as char
    else if c == KelvinSign then 'k'
    else c
  }

  /** Lower-cases a string character by character. */
  function ToLower(s: string): (r: string)
    ensures |r| == |s|
    ensures forall i :: 0 <= i < |s| ==> r[i] == LowerChar(s[i])
    ensures AllLetters(s) ==> IsLowerWord(r)
    ensures IsLowerWord(s) ==> r == s
  {
    seq(|s|, i requires 0 <= i < |s| => LowerChar(s[i]))
  }
}
