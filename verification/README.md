# nthu-courses-api: the course filter, in Dafny

The service fetches the university's course feed (a JSON array of course
records, each an object from field name to string) and its `/courses`
endpoint returns the records whose English title matches the pattern
`Programming`. The logic worth modelling is the `Condition` class, a test of
one named field of a record, and the `courses.filter(...)` step that applies
it. This project models both as pure functions and proves what they promise.

- `CaseFold` (case_fold.dfy): the case folding a RegExp with the `i` flag and
  without the `u` flag performs (Canonicalize, ECMA-262 section 22.2.2),
  modelled exactly on ASCII; `AgreesOnAscii` states the constraints the full
  Unicode mapping obeys.
- `LiteralSearch` (literal_search.dfy): what `RegExp.prototype.test` does with
  an ASCII pattern free of syntax characters (ECMA-262 section 22.2.1): a
  case-insensitive search for a contiguous block, tried at each start position
  in turn.
- `Conditions` (conditions.dfy): records as `map<string, string>`, the
  `Condition` datatype, its constructor with RegExp mode as default, and
  `Check`. The RegExp engine is a parameter `RegexOracle`, a function from
  pattern and subject to "a match was found". `EcmaLiteralEngine` describes
  any engine that searches literal patterns as ECMA-262 section 22.2.2 does,
  with a canonicalisation obeying its constraints (non-ASCII letters may
  fold too); `EcmaEngineIsFaithful` proves every such engine agrees with
  `LiteralSearch.Test` on ASCII literal patterns (`FaithfulOnLiterals`).
- `Filtering` (filtering.dfy): the filter step, as a recursive function and as
  the index-order loop of `Array.prototype.filter`, with order, multiplicity,
  idempotence and commutation lemmas.
- `Courses` (courses.dfy): the endpoint's fixed condition (English-title field
  `課程英文名稱`, pattern `Programming`, RegExp mode) and the worked cases.

The code builds the RegExp inside `check`, only after the field guard passes
(server.mjs:38-43), so a record with a missing or empty field never reaches
the engine, and an invalid pattern would throw only for records whose field
is non-empty. An exact-mode
condition with an empty matcher matches nothing, because the guard rejects an
empty value before the comparison (`Conditions.Check` states this).

## Model

| member | source | states |
|---|---|---|
| Conditions.Check | server.mjs:37-50 | a missing or empty field never matches, in either mode; in exact mode the result is true iff the field is present and equal to the matcher character for character (so an empty matcher matches nothing); in RegExp mode with a non-empty value the result is the engine's verdict on that value |
| Conditions.FieldData | server.mjs:38-41 | a field counts as present only when the key exists and its value is non-empty; the value returned is the record's own |
| Conditions.NewConditionDefaultsToRegex | server.mjs:31-34 | leaving out the third constructor argument gives RegExp mode and keeps field and matcher as given |
| Conditions.CheckDependsOnlyOnField | server.mjs:37-50 | two records that agree on the condition's field (both lack it, or both hold the same value) get the same verdict: the check reads nothing else |
| Conditions.NewCondition | server.mjs:31-34 | builds a condition from field name, matcher and mode, with the mode defaulting to RegExp |
| Conditions.EcmaEngineIsFaithful | server.mjs:43-44 | every engine that searches literal patterns as ECMA-262 prescribes, under any canonicalisation obeying its constraints, gives the same verdict as the literal search on every ASCII literal pattern |
| Conditions.LiteralRegexCheckIsSubstringSearch | server.mjs:42-45 | in RegExp mode with a literal ASCII matcher and an engine faithful on such patterns, a record passes iff its field is non-empty and contains the matcher, ignoring case, as a contiguous block anywhere in the value |
| CaseFold.Canonicalize | server.mjs:43 | folding changes only lower-case ASCII letters, each to its upper-case partner, and never moves a character into or out of the ASCII range |
| CaseFold.Fold | server.mjs:43 | folding a string keeps its length and replaces each character by one that matches it case-insensitively; the reference substring definition compares folded strings |
| CaseFold.ConstraintsAdmitNonAsciiFolding | server.mjs:43 | the ECMA-262 constraints admit a canonicalisation that folds é to É, which ASCII folding does not: the engine hypothesis covers engines that fold beyond ASCII |
| CaseFold.AsciiFoldIsExact | server.mjs:43 | against an ASCII pattern character, every canonicalisation obeying ECMA-262's constraints agrees with ASCII folding |
| LiteralSearch.FirstMatchFrom | server.mjs:44 | the search returns a start position where the pattern matches, and no earlier position from the starting point matches; when it fails, no position matches |
| LiteralSearch.Test | server.mjs:44 | `test` is true iff the pattern matches at some position of the subject, characters compared after ASCII folding |
| LiteralSearch.MatchesAtIsFoldedBlock | server.mjs:43-44 | a match at a position is the same as the folded block of the subject there equalling the folded pattern |
| LiteralSearch.TestIsSubstringSearch | server.mjs:42-45 | `test` is true iff the pattern occurs ignoring case as a contiguous block of the subject: a substring search, not a whole-value match |
| LiteralSearch.AsciiPatternMatchIsExact | server.mjs:43 | for an ASCII pattern, ASCII folding finds exactly the matches any canonicalisation obeying ECMA-262's constraints finds, at every position, whatever the subject contains |
| Filtering.Filter | server.mjs:61-64 | the result is no longer than the input and every record in it satisfies the condition |
| Filtering.FilterKeepsMultiplicity | server.mjs:61-64 | each record occurs in the result as often as in the input when it satisfies the condition, and not at all otherwise |
| Filtering.FilterMembership | server.mjs:61-64 | a record is in the result iff it is in the input and satisfies the condition |
| Filtering.FilterConcat | server.mjs:61-64 | filtering a concatenation is the concatenation of the filtered parts |
| Filtering.FilterInOrder | server.mjs:61-64 | the index-order loop of `Array.prototype.filter` computes exactly `Filter` |
| Filtering.Positions | server.mjs:61-64 | the kept positions are in range, strictly increasing, and hold exactly the indices whose record satisfies the condition |
| Filtering.FilterIsOrderedSubsequence | server.mjs:61-64 | the result is the input at the kept positions, in increasing order: relative order is preserved |
| Filtering.FilterKeepsAllWhenAllMatch | server.mjs:61-64 | when every input record satisfies the condition the result is the input unchanged |
| Filtering.FilterIdempotent | server.mjs:61-64 | filtering an already filtered sequence with the same condition returns it unchanged |
| Filtering.FilterCommutes | server.mjs:61-64 | filtering by two conditions in either order gives the same sequence |
| Courses.CoursesFilter | server.mjs:59-64 | every returned course has a non-empty English title in which the engine finds `Programming`, and no more courses come back than went in |
| Courses.TitlePatternIsLiteralAscii | server.mjs:59 | the endpoint's pattern has no syntax character and is ASCII, so the literal search models it exactly |
| Courses.CoursesFilterSelectsProgrammingTitles | server.mjs:59-64 | with any engine that searches literal patterns as ECMA-262 prescribes, a course is returned iff it is in the feed and its English title contains `Programming` ignoring case |
| Courses.ContainedTitleIsKept | server.mjs:59-64 | with any ECMA-262 engine, "Intro to Programming" is kept, though it is not equal to the pattern |
| Courses.LowerCaseTitleIsKept | server.mjs:59-64 | with any ECMA-262 engine, "programming basics" is kept: the search ignores case |
| Courses.OtherTitleIsDropped | server.mjs:59-64 | with any ECMA-262 engine, "Mathematics" is dropped |
| Courses.UntitledCourseIsDropped | server.mjs:38-41 | every record whose English title is missing or empty is dropped, whatever its other fields hold and whatever the engine |
| Courses.ExactModeRejectsContainedTitle | server.mjs:46-48 | the same matcher in exact mode rejects "Intro to Programming" |

## Left out

- The Express app, route registration, `app.listen` and the `PORT` setting (server.mjs:1-4, 54, 75): server plumbing with no logic.
- The `fetch` of the feed URL and `response.json()` decoding (server.mjs:5, 56-57): network I/O and a foreign JSON parser; the model starts from the decoded sequence of records.
- The `try`/`catch` that answers HTTP 500 with a fixed message, and the `console` logging (server.mjs:66-70): glue and logging.
- General RegExp compilation and matching: the engine is the `RegexOracle` parameter, and only ASCII patterns without syntax characters are modelled concretely. The `SyntaxError` an invalid pattern raises is not modelled, since it is raised by the engine.
- CaseFold.Canonicalize: folds ASCII letters only, whereas a RegExp with the `i` flag also upper-cases letters outside ASCII (é to É), because the full Unicode case mapping is not modelled. For ASCII patterns this makes no difference (`Conditions.EcmaEngineIsFaithful`).
- LiteralSearch.Test: agrees with `RegExp.prototype.test` only on ASCII patterns without syntax characters, for the reason above; a non-ASCII literal pattern can match case variants it misses.
- Matching by UTF-16 code unit: characters here are Unicode scalar values; an ASCII pattern cannot match part of a surrogate pair, so the endpoint's search is unaffected.
- Field values that are not strings, and lookups that reach the JavaScript prototype chain: records are plain maps from string to string.
- The field-meaning comment (server.mjs:7-28), such as an empty size limit meaning no cap: no code reads these fields.
