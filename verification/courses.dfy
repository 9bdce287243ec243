/**
 The one query the `/courses` endpoint answers: the courses whose English
 title contains "Programming", ignoring case, anywhere in the title.
 */
module Courses {
  import opened CaseFold
  import opened LiteralSearch
  import opened Conditions
  import opened Filtering

  /** The feed's field name for a course's English title. */
  const EnglishTitleField: string := "課程英文名稱"

  /** The pattern the endpoint searches for. */
  const TitlePattern: string := "Programming"

  /** The endpoint's condition, built with RegExp mode passed explicitly. */
  const CoursesCondition: Condition := NewCondition(EnglishTitleField, TitlePattern, true)

  /**
   The records the endpoint returns for a fetched feed: each has a non-empty
   English title in which the engine finds the pattern.
   */
  function CoursesFilter(courses: seq<Record>, test: RegexOracle): (kept: seq<Record>)
    ensures |kept| <= |courses|
    ensures forall i :: 0 <= i < |kept| ==>
      EnglishTitleField in kept[i] && kept[i][EnglishTitleField] != ""
      && test(TitlePattern, kept[i][EnglishTitleField])
  {
    Filter(CoursesCondition, courses, test)
  }

  /** The pattern has no syntax character and is plain ASCII, so the literal search models it exactly. */
  lemma TitlePatternIsLiteralAscii()
    ensures IsLiteralPattern(TitlePattern) && IsAsciiString(TitlePattern)
  {
  }

  /**
   A course is returned exactly when it is in the feed and its English title
   contains "Programming", ignoring case, as a contiguous block.
   */
  lemma CoursesFilterSelectsProgrammingTitles(courses: seq<Record>, test: RegexOracle, canon: char -> char, r: Record)
    requires EcmaLiteralEngine(test, canon)
    ensures r in CoursesFilter(courses, test) <==>
      r in courses && EnglishTitleField in r && ContainsIgnoringCase(r[EnglishTitleField], TitlePattern)
  {
    EcmaEngineIsFaithful(test, canon);
    FilterMembership(CoursesCondition, courses, test, r);
    LiteralRegexCheckIsSubstringSearch(CoursesCondition, r, test);
    if EnglishTitleField in r && ContainsIgnoringCase(r[EnglishTitleField], TitlePattern) {
      var i, j :| 0 <= i <= j <= |r[EnglishTitleField]| && j - i == |TitlePattern|
        && Fold(r[EnglishTitleField][i..j]) == Fold(TitlePattern);
      assert r[EnglishTitleField] != "";
    }
  }

  /** A record whose only field is the English title `title`. */
  function TitledCourse(title: string): Record {
    map[EnglishTitleField := title]
  }

  /** A title that contains the pattern after other words is kept: the search is not a whole-title match. */
  lemma ContainedTitleIsKept(test: RegexOracle, canon: char -> char)
    requires EcmaLiteralEngine(test, canon)
    ensures Check(CoursesCondition, TitledCourse("Intro to Programming"), test)
  {
    EcmaEngineIsFaithful(test, canon);
    TitlePatternIsLiteralAscii();
    assert MatchesAt(TitlePattern, "Intro to Programming", 9);
    assert Test(TitlePattern, "Intro to Programming");
  }

  /** A title that contains the pattern in lower case is kept. */
  lemma LowerCaseTitleIsKept(test: RegexOracle, canon: char -> char)
    requires EcmaLiteralEngine(test, canon)
    ensures Check(CoursesCondition, TitledCourse("programming basics"), test)
  {
    EcmaEngineIsFaithful(test, canon);
    TitlePatternIsLiteralAscii();
    assert MatchesAt(TitlePattern, "programming basics", 0);
    assert Test(TitlePattern, "programming basics");
  }

  /** A title that does not contain the pattern is dropped. */
  lemma OtherTitleIsDropped(test: RegexOracle, canon: char -> char)
    requires EcmaLiteralEngine(test, canon)
    ensures !Check(CoursesCondition, TitledCourse("Mathematics"), test)
  {
    EcmaEngineIsFaithful(test, canon);
    TitlePatternIsLiteralAscii();
    assert !CharsMatch("Mathematics"[0], TitlePattern[0]);
    assert !MatchesAt(TitlePattern, "Mathematics", 0);
    assert !Test(TitlePattern, "Mathematics");
  }

  /** A record without an English title, or with an empty one, is dropped, whatever its other fields hold and whatever the engine. */
  lemma UntitledCourseIsDropped(r: Record, test: RegexOracle)
    requires EnglishTitleField !in r || r[EnglishTitleField] == ""
    ensures !Check(CoursesCondition, r, test)
  {
  }

  /** In exact mode the same matcher rejects a title that merely contains it. */
  lemma ExactModeRejectsContainedTitle(test: RegexOracle)
    ensures !Check(Condition(EnglishTitleField, TitlePattern, false), TitledCourse("Intro to Programming"), test)
  {
    assert |"Intro to Programming"| != |TitlePattern|;
  }
}
