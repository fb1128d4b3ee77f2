/** The filter effect of the recommended-courses page: the course list narrowed by a free-text
    search, a level, a minimum rating, a duration bucket and a set of topics. */
module CourseFilter {
  import opened Wrappers
  import opened Strings
  import opened Seqs

  /** A course record as the page reads it. Text fields are absent when the record lacks them;
      `rating` and `duration` are the result of `parseFloat` on the record's field, with `None`
      standing for `NaN`. */
  datatype Course = Course(
    id: Option<int>,
    title: Option<string>,
    keyword: Option<string>,
    instructor: Option<string>,
    level: Option<string>,
    rating: Option<real>,
    duration: Option<real>)

  /** The filter panel's state; `""`, `0` and `[]` mean "no constraint". */
  datatype Filters = Filters(level: string, rating: real, duration: string, topics: seq<string>)

  /** The criteria the page starts with and returns to on reset. */
  const NoFilters := Filters("", 0.0, "", [])

  /** `field?.toLowerCase().includes(needle)`: a missing field never matches. */
  predicate FieldIncludes(field: Option<string>, needle: string) {
    field.Some? && Contains(Lower(field.value), needle)
  }

  /** The search test, given the already lower-cased search term. */
  predicate SearchHit(c: Course, needle: string) {
    FieldIncludes(c.title, needle) || FieldIncludes(c.keyword, needle) || FieldIncludes(c.instructor, needle)
  }

  /** The level test: strict equality with the record's level. */
  predicate LevelHit(c: Course, level: string) {
    c.level == Some(level)
  }

  /** The rating test: `parseFloat(rating) >= min`, false for `NaN`. */
  predicate RatingHit(c: Course, min: real) {
    c.rating.Some? && c.rating.value >= min
  }

  /** The duration buckets: short is at most 10 hours, medium above 10 and at most 30, long above 30.
      A non-numeric duration is in no bucket; a bucket name other than the three constrains nothing. */
  predicate InBucket(duration: Option<real>, bucket: string) {
    if bucket == "short" then duration.Some? && duration.value <= 10.0
    else if bucket == "medium" then duration.Some? && 10.0 < duration.value <= 30.0
    else if bucket == "long" then duration.Some? && duration.value > 30.0
    else true
  }

  /** The topic test: the lower-cased keyword string (or `""`) includes some lower-cased topic. */
  predicate TopicHit(c: Course, topics: seq<string>) {
    exists k :: 0 <= k < |topics| && Contains(Lower(c.keyword.GetOr("")), Lower(topics[k]))
  }

  /** Whether the search box takes part: only when the term is not blank. */
  predicate SearchActive(searchTerm: string) {
    Trim(searchTerm) != ""
  }

  /** The meaning of the whole filter, stated once per record: a course is shown iff it passes
      every test that is switched on. */
  predicate Accepts(c: Course, searchTerm: string, f: Filters) {
    && (SearchActive(searchTerm) ==> SearchHit(c, Lower(searchTerm)))
    && (f.level != "" ==> LevelHit(c, f.level))
    && (f.rating > 0.0 ==> RatingHit(c, f.rating))
    && (f.duration != "" ==> InBucket(c.duration, f.duration))
    && (|f.topics| > 0 ==> TopicHit(c, f.topics))
  }

  /** The courses shown for the given criteria, as one pass over the list. */
  function Filtered(courses: seq<Course>, searchTerm: string, f: Filters): seq<Course> {
    Select(courses, c => Accepts(c, searchTerm, f))
  }

  /** The five tests in the order the effect applies them, each one `true` while its control is off. */
  predicate StageTest(c: Course, searchTerm: string, f: Filters, stage: nat) {
    if stage == 0 then SearchActive(searchTerm) ==> SearchHit(c, Lower(searchTerm))
    else if stage == 1 then f.level != "" ==> LevelHit(c, f.level)
    else if stage == 2 then f.rating > 0.0 ==> RatingHit(c, f.rating)
    else if stage == 3 then f.duration != "" ==> InBucket(c.duration, f.duration)
    else if stage == 4 then |f.topics| > 0 ==> TopicHit(c, f.topics)
    else true
  }

  /** Whether a course passes the first `n` stages. */
  predicate PassesFirst(c: Course, searchTerm: string, f: Filters, n: nat) {
    n == 0 || (PassesFirst(c, searchTerm, f, n - 1) && StageTest(c, searchTerm, f, n - 1))
  }

  /** The list after the first `n` stages. */
  function AfterStages(courses: seq<Course>, searchTerm: string, f: Filters, n: nat): seq<Course> {
    Select(courses, c => PassesFirst(c, searchTerm, f, n))
  }

  /** Before the first stage the list is the whole list. */
  lemma NoStages(courses: seq<Course>, searchTerm: string, f: Filters)
    ensures AfterStages(courses, searchTerm, f, 0) == courses
  {
    SelectKeepsAll(courses, c => PassesFirst(c, searchTerm, f, 0));
  }

  /** Passing all five stages is passing the one-pass filter. */
  lemma AllStages(courses: seq<Course>, searchTerm: string, f: Filters)
    ensures AfterStages(courses, searchTerm, f, 5) == Filtered(courses, searchTerm, f)
  {
    forall c | true
      ensures PassesFirst(c, searchTerm, f, 5) == Accepts(c, searchTerm, f)
    {
      assert PassesFirst(c, searchTerm, f, 1) == StageTest(c, searchTerm, f, 0);
      assert PassesFirst(c, searchTerm, f, 2) == (PassesFirst(c, searchTerm, f, 1) && StageTest(c, searchTerm, f, 1));
      assert PassesFirst(c, searchTerm, f, 3) == (PassesFirst(c, searchTerm, f, 2) && StageTest(c, searchTerm, f, 2));
      assert PassesFirst(c, searchTerm, f, 4) == (PassesFirst(c, searchTerm, f, 3) && StageTest(c, searchTerm, f, 3));
      assert PassesFirst(c, searchTerm, f, 5) == (PassesFirst(c, searchTerm, f, 4) && StageTest(c, searchTerm, f, 4));
    }
    SelectExt(courses, c => PassesFirst(c, searchTerm, f, 5), c => Accepts(c, searchTerm, f));
  }

  /** A stage whose control is set narrows the previous list by its test. */
  lemma StageNarrows(courses: seq<Course>, filtered: seq<Course>, searchTerm: string, f: Filters, n: nat,
                      test: Course -> bool)
    requires filtered == AfterStages(courses, searchTerm, f, n)
    requires forall c :: test(c) == StageTest(c, searchTerm, f, n)
    ensures Select(filtered, test) == AfterStages(courses, searchTerm, f, n + 1)
  {
    SelectSelect(courses, c => PassesFirst(c, searchTerm, f, n), test, c => PassesFirst(c, searchTerm, f, n + 1));
  }

  /** A stage whose control is off leaves the previous list as it is. */
  lemma StageSkipped(courses: seq<Course>, searchTerm: string, f: Filters, n: nat)
    requires forall c :: StageTest(c, searchTerm, f, n)
    ensures AfterStages(courses, searchTerm, f, n) == AfterStages(courses, searchTerm, f, n + 1)
  {
    SelectExt(courses, c => PassesFirst(c, searchTerm, f, n), c => PassesFirst(c, searchTerm, f, n + 1));
  }

  /** Stage 1 of the effect, the search box: kept when the trimmed term is not empty, matching the lower-cased term: `filter` applied only when the control is set. */
  method SearchStage(ghost courses: seq<Course>, filtered: seq<Course>, searchTerm: string, filters: Filters)
    returns (r: seq<Course>)
    requires filtered == AfterStages(courses, searchTerm, filters, 0)
    ensures r == AfterStages(courses, searchTerm, filters, 1)
  {
    r := filtered;
    if Trim(searchTerm) != "" {
      var search := Lower(searchTerm);
      var test := c => SearchHit(c, search);
      StageNarrows(courses, filtered, searchTerm, filters, 0, test);
      r := Select(filtered, test);
    } else {
      StageSkipped(courses, searchTerm, filters, 0);
      assert r == AfterStages(courses, searchTerm, filters, 1);
    }
  }

  /** Stage 2 of the effect, the level control: `filter` applied only when the control is set. */
  method LevelStage(ghost courses: seq<Course>, filtered: seq<Course>, searchTerm: string, filters: Filters)
    returns (r: seq<Course>)
    requires filtered == AfterStages(courses, searchTerm, filters, 1)
    ensures r == AfterStages(courses, searchTerm, filters, 2)
  {
    r := filtered;
    if filters.level != "" {
      var test := c => LevelHit(c, filters.level);
      StageNarrows(courses, filtered, searchTerm, filters, 1, test);
      r := Select(filtered, test);
    } else {
      StageSkipped(courses, searchTerm, filters, 1);
      assert r == AfterStages(courses, searchTerm, filters, 2);
    }
  }

  /** Stage 3 of the effect, the minimum-rating control: `filter` applied only when the control is set. */
  method RatingStage(ghost courses: seq<Course>, filtered: seq<Course>, searchTerm: string, filters: Filters)
    returns (r: seq<Course>)
    requires filtered == AfterStages(courses, searchTerm, filters, 2)
    ensures r == AfterStages(courses, searchTerm, filters, 3)
  {
    r := filtered;
    if filters.rating > 0.0 {
      var test := c => RatingHit(c, filters.rating);
      StageNarrows(courses, filtered, searchTerm, filters, 2, test);
      r := Select(filtered, test);
    } else {
      StageSkipped(courses, searchTerm, filters, 2);
      assert r == AfterStages(courses, searchTerm, filters, 3);
    }
  }

  /** Stage 4 of the effect, the duration control: `filter` applied only when the control is set. */
  method DurationStage(ghost courses: seq<Course>, filtered: seq<Course>, searchTerm: string, filters: Filters)
    returns (r: seq<Course>)
    requires filtered == AfterStages(courses, searchTerm, filters, 3)
    ensures r == AfterStages(courses, searchTerm, filters, 4)
  {
    r := filtered;
    if filters.duration != "" {
      var test := (c: Course) => InBucket(c.duration, filters.duration);
      StageNarrows(courses, filtered, searchTerm, filters, 3, test);
      r := Select(filtered, test);
    } else {
      StageSkipped(courses, searchTerm, filters, 3);
      assert r == AfterStages(courses, searchTerm, filters, 4);
    }
  }

  /** Stage 5 of the effect, the topic chips: `filter` applied only when the control is set. */
  method TopicStage(ghost courses: seq<Course>, filtered: seq<Course>, searchTerm: string, filters: Filters)
    returns (r: seq<Course>)
    requires filtered == AfterStages(courses, searchTerm, filters, 4)
    ensures r == AfterStages(courses, searchTerm, filters, 5)
  {
    r := filtered;
    if |filters.topics| > 0 {
      var test := c => TopicHit(c, filters.topics);
      StageNarrows(courses, filtered, searchTerm, filters, 4, test);
      r := Select(filtered, test);
    } else {
      StageSkipped(courses, searchTerm, filters, 4);
      assert r == AfterStages(courses, searchTerm, filters, 5);
    }
  }

  /** The effect itself: start from a copy of the list and narrow it stage by stage. The result is
      the one-pass filter. */
  method ApplyFilters(courses: seq<Course>, searchTerm: string, filters: Filters) returns (result: seq<Course>)
    ensures result == Filtered(courses, searchTerm, filters)
  {
    result := courses;
    NoStages(courses, searchTerm, filters);
    result := SearchStage(courses, result, searchTerm, filters);
    result := LevelStage(courses, result, searchTerm, filters);
    result := RatingStage(courses, result, searchTerm, filters);
    result := DurationStage(courses, result, searchTerm, filters);
    result := TopicStage(courses, result, searchTerm, filters);
    AllStages(courses, searchTerm, filters);
  }

  /** The result keeps the original order and only drops courses. */
  lemma FilteredIsSubsequence(courses: seq<Course>, searchTerm: string, f: Filters)
    ensures IsSubsequence(Filtered(courses, searchTerm, f), courses)
  {
    SelectSubsequence(courses, c => Accepts(c, searchTerm, f));
  }

  /** A course is shown iff it is in the list and passes every active test. */
  lemma FilteredMembership(courses: seq<Course>, searchTerm: string, f: Filters, c: Course)
    ensures c in Filtered(courses, searchTerm, f) <==> c in courses && Accepts(c, searchTerm, f)
  {
    var r := Filtered(courses, searchTerm, f);
    if c in r {
      var k :| 0 <= k < |r| && r[k] == c;
    }
    if c in courses && Accepts(c, searchTerm, f) {
      var k :| 0 <= k < |courses| && courses[k] == c;
    }
  }

  /** Filtering an already filtered list with the same criteria changes nothing. */
  lemma FilteredIdempotent(courses: seq<Course>, searchTerm: string, f: Filters)
    ensures Filtered(Filtered(courses, searchTerm, f), searchTerm, f) == Filtered(courses, searchTerm, f)
  {
    var p := c => Accepts(c, searchTerm, f);
    SelectSelect(courses, p, p, p);
  }

  /** With a blank search and every control at its "no constraint" value, every course is shown. */
  lemma FilteredWithoutCriteria(courses: seq<Course>, searchTerm: string, f: Filters)
    requires IsBlank(searchTerm)
    requires f.level == "" && f.rating <= 0.0 && f.duration == "" && f.topics == []
    ensures Filtered(courses, searchTerm, f) == courses
  {
    TrimSpec(searchTerm);
    SelectKeepsAll(courses, c => Accepts(c, searchTerm, f));
  }

  /** The order of the stages does not matter: narrowing by one set of criteria and then by another
      gives the same list either way round. */
  lemma FilterOrderIrrelevant(courses: seq<Course>, t1: string, f1: Filters, t2: string, f2: Filters)
    ensures Filtered(Filtered(courses, t1, f1), t2, f2) == Filtered(Filtered(courses, t2, f2), t1, f1)
  {
    var p := c => Accepts(c, t1, f1);
    var q := c => Accepts(c, t2, f2);
    var pq := c => p(c) && q(c);
    var qp := c => q(c) && p(c);
    SelectSelect(courses, p, q, pq);
    SelectSelect(courses, q, p, qp);
    SelectExt(courses, pq, qp);
  }

  /** The duration buckets never overlap, and a numeric duration is in exactly one of them. */
  lemma BucketsPartition(duration: Option<real>)
    ensures !(InBucket(duration, "short") && InBucket(duration, "medium"))
    ensures !(InBucket(duration, "short") && InBucket(duration, "long"))
    ensures !(InBucket(duration, "medium") && InBucket(duration, "long"))
    ensures duration.Some? ==> InBucket(duration, "short") || InBucket(duration, "medium") || InBucket(duration, "long")
    ensures duration.None? ==> !InBucket(duration, "short") && !InBucket(duration, "medium") && !InBucket(duration, "long")
  {
  }

  /** The boundaries of the buckets: 10 hours is short, 30 is medium, 30.01 is long. */
  lemma BucketBoundaries()
    ensures InBucket(Some(10.0), "short") && !InBucket(Some(10.0), "medium") && !InBucket(Some(10.0), "long")
    ensures InBucket(Some(30.0), "medium") && !InBucket(Some(30.0), "short") && !InBucket(Some(30.0), "long")
    ensures InBucket(Some(30.01), "long") && !InBucket(Some(30.01), "short") && !InBucket(Some(30.01), "medium")
  {
  }

  /** Two sample records: a beginner Python course and an advanced machine-learning course. */
  const IntroPython := Course(None, Some("Intro to Python"), Some("python, basics"), None, Some("Beginner"), Some(4.5), Some(8.0))
  const AdvancedMl := Course(None, Some("Advanced ML"), Some("ml, ai"), None, Some("Advanced"), Some(3.0), Some(40.0))

  /** Filtering the two samples: which of them pass is decided record by record. */
  lemma FilterSamples(searchTerm: string, f: Filters)
    ensures Filtered([IntroPython, AdvancedMl], searchTerm, f)
            == (if Accepts(IntroPython, searchTerm, f) then [IntroPython] else [])
               + (if Accepts(AdvancedMl, searchTerm, f) then [AdvancedMl] else [])
  {
    SelectPair(IntroPython, AdvancedMl, c => Accepts(c, searchTerm, f));
  }

  /** Selecting the level "Beginner" keeps exactly the Python course. */
  lemma LevelScenario()
    ensures Filtered([IntroPython, AdvancedMl], "", NoFilters.(level := "Beginner")) == [IntroPython]
  {
    FilterSamples("", NoFilters.(level := "Beginner"));
  }

  /** A minimum rating of 4 keeps exactly the Python course (4.5 passes, 3.0 does not). */
  lemma RatingScenario()
    ensures Filtered([IntroPython, AdvancedMl], "", NoFilters.(rating := 4.0)) == [IntroPython]
  {
    FilterSamples("", NoFilters.(rating := 4.0));
  }

  /** "ml" occurs in neither the title nor the keywords of the Python course. */
  lemma IntroMissesMl()
    ensures !SearchHit(IntroPython, "ml")
  {
    var title, keyword := "Intro to Python", "python, basics";
    assert 'm' !in title && 'M' !in title;
    assert 'm' !in keyword && 'M' !in keyword;
    LowerMisses(title, "ml");
    LowerMisses(keyword, "ml");
  }

  /** "ml" occurs in the lower-cased title "advanced ml". */
  lemma AdvancedHitsMl()
    ensures SearchHit(AdvancedMl, "ml")
  {
    var t := Lower("Advanced ML");
    assert t[9] == LowerChar('M') == 'm' && t[10] == LowerChar('L') == 'l';
    assert t[9..11] == "ml";
    ContainsAt(t, "ml");
    assert OccursAt(t, "ml", 9);
  }

  /** Searching for "ml" keeps exactly the machine-learning course. */
  lemma SearchScenario()
    ensures Filtered([IntroPython, AdvancedMl], "ml", NoFilters) == [AdvancedMl]
  {
    assert SearchActive("ml") by { assert !IsSpace("ml"[0]); }
    assert Lower("ml") == "ml";
    IntroMissesMl();
    AdvancedHitsMl();
    FilterSamples("ml", NoFilters);
  }
}
