/**
 The `Condition` class: a test of one named field of a course record, either
 a case-insensitive RegExp search or an exact string comparison.
 */
module Conditions {
  import opened Wrappers
  import opened CaseFold
  import opened LiteralSearch

  /** A course record: an open mapping from field name to field value. */
  type Record = map<string, string>

  /**
   The RegExp engine: given a pattern and a subject, whether the RegExp built
   from the pattern with the `i` flag finds a match in the subject.
   */
  type RegexOracle = (string, string) -> bool

  /** The test of field `field` against `matcher`; `regexMode` selects the RegExp search. */
  datatype Condition = Condition(field: string, matcher: string, regexMode: bool)

  /** The constructor; its third argument defaults to RegExp mode. */
  function NewCondition(field: string, matcher: string, regexMode: bool := true): Condition
  {
    Condition(field, matcher, regexMode)
  }

  /** Leaving out the third constructor argument selects RegExp mode. */
  lemma NewConditionDefaultsToRegex(field: string, matcher: string)
    ensures NewCondition(field, matcher).regexMode
    ensures NewCondition(field, matcher).field == field
    ensures NewCondition(field, matcher).matcher == matcher
  {
  }

  /**
   The value of field `f` when it is present and non-empty. A missing field
   and an empty value are both falsy in JavaScript, so both are absent here.
   */
  function FieldData(r: Record, f: string): (v: Option<string>)
    ensures v.Some? ==> f in r && v.value == r[f] && v.value != ""
    ensures v.None? ==> f !in r || r[f] == ""
  {
    if f in r && r[f] != "" then Some(r[f]) else None
  }

  /** Whether record `r` satisfies condition `c`, with `test` as the RegExp engine. */
  function Check(c: Condition, r: Record, test: RegexOracle): (b: bool)
    ensures b ==> c.field in r && r[c.field] != ""
    ensures !c.regexMode ==> (b <==> c.field in r && c.matcher != "" && r[c.field] == c.matcher)
    ensures c.regexMode && c.field in r && r[c.field] != "" ==> (b <==> test(c.matcher, r[c.field]))
  {
    match FieldData(r, c.field)
    case None => false
    case Some(value) =>
      if c.regexMode then test(c.matcher, value) else value == c.matcher
  }

  /** The result depends on nothing but the condition and the value of its own field. */
  lemma CheckDependsOnlyOnField(c: Condition, r1: Record, r2: Record, test: RegexOracle)
    requires c.field in r1 <==> c.field in r2
    requires c.field in r1 ==> r1[c.field] == r2[c.field]
    ensures Check(c, r1, test) == Check(c, r2, test)
  {
  }

  /** A RegExp engine that agrees with the literal search on every ASCII pattern without syntax characters. */
  ghost predicate FaithfulOnLiterals(test: RegexOracle) {
    forall p, s :: IsLiteralPattern(p) && IsAsciiString(p) ==> test(p, s) == Test(p, s)
  }

  /**
   An engine that, on patterns without syntax characters, performs the search
   of ECMA-262 section 22.2.2: a match at some start position, comparing
   characters after canonicalisation by `canon`, which obeys the constraints
   of ECMA-262's Canonicalize for a non-unicode RegExp with the `i` flag.
   */
  ghost predicate EcmaLiteralEngine(test: RegexOracle, canon: char -> char) {
    && AgreesOnAscii(canon)
    && forall p, s :: IsLiteralPattern(p) ==> test(p, s) == FindsUnder(canon, p, s)
  }

  /**
   Every such engine agrees with the literal search on ASCII literal
   patterns, whatever it does with letters outside ASCII.
   */
  lemma EcmaEngineIsFaithful(test: RegexOracle, canon: char -> char)
    requires EcmaLiteralEngine(test, canon)
    ensures FaithfulOnLiterals(test)
  {
    forall p, s | IsLiteralPattern(p) && IsAsciiString(p)
      ensures test(p, s) == Test(p, s)
    {
      if FindsUnder(canon, p, s) {
        var i: nat :| MatchesAtUnder(canon, p, s, i);
        AsciiPatternMatchIsExact(canon, p, s, i);
      }
      if Test(p, s) {
        var i: nat :| MatchesAt(p, s, i);
        AsciiPatternMatchIsExact(canon, p, s, i);
      }
    }
  }

  /**
   In RegExp mode with a literal ASCII matcher, a record satisfies the condition
   exactly when the matcher occurs, ignoring case, as a contiguous block of a
   non-empty field value.
   */
  lemma LiteralRegexCheckIsSubstringSearch(c: Condition, r: Record, test: RegexOracle)
    requires c.regexMode && IsLiteralPattern(c.matcher) && IsAsciiString(c.matcher)
    requires FaithfulOnLiterals(test)
    ensures Check(c, r, test) <==>
      c.field in r && r[c.field] != "" && ContainsIgnoringCase(r[c.field], c.matcher)
  {
    if c.field in r && r[c.field] != "" {
      TestIsSubstringSearch(c.matcher, r[c.field]);
    }
  }
}
