/**
 Case-insensitive character comparison, as performed by a RegExp built with
 the `i` flag and without the `u` flag. The Canonicalize operation of
 ECMA-262 section 22.2.2 maps a character to its upper-case form, except that
 a character at or above U+0080 is never mapped into the ASCII range. This
 module models the ASCII part of that mapping and leaves every other
 character unchanged; `AgreesOnAscii` states the constraints any faithful
 canonicalisation satisfies, so that results about ASCII patterns carry over
 to the full mapping.
 */
module CaseFold {

  /** True for the 128 characters of the ASCII range. */
  predicate IsAscii(ch: char) {
    ch < '\U{80}'
  }

  predicate IsAsciiString(s: string) {
    forall i :: 0 <= i < |s| ==> IsAscii(s[i])
  }

  predicate IsAsciiLower(ch: char) {
    'a' <= ch <= 'z'
  }

  /** The canonical (upper-case) form of a character under ASCII folding. */
  function Canonicalize(ch: char): (r: char)
    ensures IsAscii(r) <==> IsAscii(ch)
    ensures !IsAsciiLower(r)
    ensures r == ch || IsAsciiLower(ch)
    ensures IsAsciiLower(ch) ==> 'A' <= r <= 'Z' && r as int + 32 == ch as int
  {
    if IsAsciiLower(ch) then (ch as int - 32) as char else ch
  }

  /** Two characters match case-insensitively when their canonical forms agree. */
  predicate CharsMatch(a: char, b: char) {
    Canonicalize(a) == Canonicalize(b)
  }

  /** The string of canonical forms of the characters of `s`. */
  function Fold(s: string): (t: string)
    ensures |t| == |s|
    ensures forall i :: 0 <= i < |s| ==> CharsMatch(t[i], s[i])
  {
    seq(|s|, i requires 0 <= i < |s| => Canonicalize(s[i]))
  }

  /**
   The constraints ECMA-262's Canonicalize places on a case-insensitive,
   non-unicode RegExp: ASCII characters fold as `Canonicalize` does, and no
   character outside ASCII folds into ASCII.
   */
  ghost predicate AgreesOnAscii(canon: char -> char) {
    && (forall ch :: IsAscii(ch) ==> canon(ch) == Canonicalize(ch))
    && (forall ch :: !IsAscii(ch) ==> !IsAscii(canon(ch)))
  }

  /** Against an ASCII character, any faithful canonicalisation compares exactly as ASCII folding does. */
  lemma AsciiFoldIsExact(canon: char -> char, a: char, p: char)
    requires AgreesOnAscii(canon)
    requires IsAscii(p)
    ensures canon(a) == canon(p) <==> CharsMatch(a, p)
  {
  }

  /**
   A canonicalisation that goes beyond ASCII the way a RegExp with the `i`
   flag does for one letter pair: it also folds é (U+00E9) to É (U+00C9).
   */
  function FoldEAcute(ch: char): char {
    if ch == '\U{E9}' then '\U{C9}' else Canonicalize(ch)
  }

  /** The constraints admit canonicalisations that fold letters outside ASCII. */
  lemma ConstraintsAdmitNonAsciiFolding()
    ensures AgreesOnAscii(FoldEAcute)
    ensures FoldEAcute('\U{E9}') == FoldEAcute('\U{C9}') && !CharsMatch('\U{E9}', '\U{C9}')
  {
  }
}
