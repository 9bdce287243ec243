/**
 The search a case-insensitive RegExp performs when its pattern contains no
 syntax character and is ASCII. Each character of such a pattern is an atom that matches
 one subject character, so the pattern matches exactly where its characters
 line up, case folded, with a contiguous block of the subject. `test` tries
 the start positions 0, 1, ... in turn, so the search finds a match anywhere
 in the subject; it is not a match of the whole subject.
 */
module LiteralSearch {
  import opened Wrappers
  import opened CaseFold

  /** The SyntaxCharacter set of ECMA-262 section 22.2.1. */
  predicate IsSyntaxCharacter(ch: char) {
    ch in "^$\\.*+?()[]{}|"
  }

  /** A pattern in which every character stands for itself. */
  predicate IsLiteralPattern(p: string) {
    forall i :: 0 <= i < |p| ==> !IsSyntaxCharacter(p[i])
  }

  /** Pattern `p` matches subject `s` case-insensitively starting at position `i`. */
  predicate MatchesAt(p: string, s: string, i: nat) {
    i + |p| <= |s| && forall k :: 0 <= k < |p| ==> CharsMatch(s[i + k], p[k])
  }

  /** Reference definition: some contiguous block of `s` folds to the same string as `p`. */
  ghost predicate ContainsIgnoringCase(s: string, p: string) {
    exists i, j :: 0 <= i <= j <= |s| && j - i == |p| && Fold(s[i..j]) == Fold(p)
  }

  /**
   The first start position at or after `from` where `p` matches, trying the
   positions in increasing order up to the subject's length, as the RegExp
   built-in exec does for a RegExp with neither the global nor the sticky flag.
   */
  function FirstMatchFrom(p: string, s: string, from: nat): (r: Option<nat>)
    decreases |s| + 1 - from
    ensures r.Some? ==> from <= r.value && MatchesAt(p, s, r.value)
    ensures forall j: nat :: from <= j && (r.None? || j < r.value) ==> !MatchesAt(p, s, j)
  {
    if from > |s| then None
    else if MatchesAt(p, s, from) then Some(from)
    else FirstMatchFrom(p, s, from + 1)
  }

  /**
   `RegExp.prototype.test` for a literal ASCII pattern compiled with the `i`
   flag (for a non-ASCII pattern it omits the folding of non-ASCII letters).
   */
  function Test(p: string, s: string): (found: bool)
    ensures found <==> exists i: nat :: MatchesAt(p, s, i)
  {
    FirstMatchFrom(p, s, 0).Some?
  }

  /** A match at a position is the same thing as an equal folded block there. */
  lemma MatchesAtIsFoldedBlock(p: string, s: string, i: nat)
    requires i + |p| <= |s|
    ensures MatchesAt(p, s, i) <==> Fold(s[i..i + |p|]) == Fold(p)
  {
  }

  /** The search succeeds exactly when the pattern occurs, ignoring case, as a contiguous block of the subject. */
  lemma TestIsSubstringSearch(p: string, s: string)
    ensures Test(p, s) <==> ContainsIgnoringCase(s, p)
  {
    if Test(p, s) {
      var i: nat :| MatchesAt(p, s, i);
      MatchesAtIsFoldedBlock(p, s, i);
      assert Fold(s[i..i + |p|]) == Fold(p);
    }
    if ContainsIgnoringCase(s, p) {
      var i, j :| 0 <= i <= j <= |s| && j - i == |p| && Fold(s[i..j]) == Fold(p);
      MatchesAtIsFoldedBlock(p, s, i);
      assert MatchesAt(p, s, i);
    }
  }

  /** Matching at a position under an arbitrary canonicalisation. */
  ghost predicate MatchesAtUnder(canon: char -> char, p: string, s: string, i: nat) {
    i + |p| <= |s| && forall k :: 0 <= k < |p| ==> canon(s[i + k]) == canon(p[k])
  }

  /** `p` matches somewhere in `s` under the canonicalisation `canon`. */
  ghost predicate FindsUnder(canon: char -> char, p: string, s: string) {
    exists i: nat :: MatchesAtUnder(canon, p, s, i)
  }

  /**
   For an ASCII pattern, ASCII folding gives exactly the matches that any
   canonicalisation obeying ECMA-262's constraints gives, whatever characters
   the subject holds.
   */
  lemma AsciiPatternMatchIsExact(canon: char -> char, p: string, s: string, i: nat)
    requires AgreesOnAscii(canon)
    requires IsAsciiString(p)
    ensures MatchesAtUnder(canon, p, s, i) <==> MatchesAt(p, s, i)
  {
  }
}
