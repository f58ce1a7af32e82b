/** The GPA/CGPA engine of the calculator page: which catalog courses a
    calculation type selects, how a typed score updates the persisted score
    map, the validate-then-aggregate computation of the results, and clearing
    the scores.

    The course catalog and the score-to-grade-point mapping live in code that
    is not part of this model; they are parameters here (`db` and `gp`). */
module Cgpa {
  import opened Wrappers
  import opened JsText

  // ---------------------------------------------------------------------------
  // Catalog and course selection
  // ---------------------------------------------------------------------------

  /** A catalog course; its code is unique within its level. */
  datatype Course = Course(code: string, title: string, credits: nat)

  /** The course database: level, then semester ("1" or "2"), then courses. */
  type Catalog = map<int, map<string, seq<Course>>>

  /** The calculation types offered by the page's selector. */
  datatype Mode = Semester1 | Semester2 | Cumulative

  function ModeOf(name: string): Option<Mode> {
    if name == "semester1" then Some(Semester1)
    else if name == "semester2" then Some(Semester2)
    else if name == "cgpa" then Some(Cumulative)
    else None
  }

  /** `coursesDatabase[level]?.[semester] || []`. */
  function SemesterCourses(db: Catalog, level: int, semester: string): seq<Course> {
    if level in db && semester in db[level] then db[level][semester] else []
  }

  /** The courses a calculation type covers; an unknown type matches no case of
      the switch and leaves the selection empty. */
  function CoursesFor(db: Catalog, level: int, calculationType: string): (r: seq<Course>)
    ensures calculationType == "semester1" ==> r == SemesterCourses(db, level, "1")
    ensures calculationType == "semester2" ==> r == SemesterCourses(db, level, "2")
    ensures calculationType == "cgpa" ==>
              r == SemesterCourses(db, level, "1") + SemesterCourses(db, level, "2")
    ensures (calculationType != "semester1" && calculationType != "semester2"
             && calculationType != "cgpa") ==> r == []
    ensures level !in db ==> r == []
  {
    match ModeOf(calculationType)
    case None => []
    case Some(Semester1) => SemesterCourses(db, level, "1")
    case Some(Semester2) => SemesterCourses(db, level, "2")
    case Some(Cumulative) => SemesterCourses(db, level, "1") + SemesterCourses(db, level, "2")
  }

  /** `user.level || 100`: a missing or zero level falls back to level 100. */
  function CurrentLevel(userLevel: Option<int>): (r: int)
    ensures r != 0
    ensures userLevel.Some? && userLevel.value != 0 ==> r == userLevel.value
    ensures userLevel.None? || userLevel == Some(0) ==> r == 100
  {
    match userLevel
    case Some(l) => if l != 0 then l else 100
    case None => 100
  }

  // ---------------------------------------------------------------------------
  // The score map
  // ---------------------------------------------------------------------------

  /** A value of the persisted score map. The page itself only writes
      integers; text and null stand for whatever else a persisted, possibly
      corrupted, JSON object can hold. A persisted number with a fraction or
      exponent has no stand-in here. */
  datatype Stored = Num(n: int) | Str(s: string) | Null

  /** Score map keyed by "level-code". */
  type Scores = map<string, Stored>

  /** The key `${level}-${code}` of a course's score. */
  function CourseKey(level: int, code: string): string {
    IntToString(level) + "-" + code
  }

  /** Within one level, distinct course codes have distinct keys. */
  lemma CourseKeyInjective(level: int, a: string, b: string)
    requires CourseKey(level, a) == CourseKey(level, b)
    ensures a == b
  {
    var p := IntToString(level) + "-";
    assert CourseKey(level, a) == p + a && CourseKey(level, b) == p + b;
    assert a == (p + a)[|p|..];
    assert b == (p + b)[|p|..];
  }

  /** Every stored value is an integer score in [0, 100]. */
  predicate WellFormed(scores: Scores) {
    forall k | k in scores :: scores[k].Num? && 0 <= scores[k].n <= 100
  }

  /** `k` has the same entry (or the same absence) in both maps. */
  predicate SameEntry(a: Scores, b: Scores, k: string) {
    (k in a <==> k in b) && (k in a ==> a[k] == b[k])
  }

  /** The score `updateGrade` accepts from the typed input: none for empty
      input, for input that parses to NaN, and for a value outside [0, 100]. */
  function AcceptedScore(input: string): Option<int> {
    if input == "" then None
    else
      match ParseInt(input)
      case None => None
      case Some(n) => if n < 0 || n > 100 then None else Some(n)
  }

  /** Non-empty input whose `parseInt` is an integer in [0, 100]. */
  predicate ValidInput(input: string) {
    input != "" && ParseInt(input).Some? && 0 <= ParseInt(input).value <= 100
  }

  /** The accepted score is the `parseInt` value of valid input, and there is
      none for any other input. */
  lemma AcceptedScoreIffValid(input: string)
    ensures AcceptedScore(input).Some? <==> ValidInput(input)
    ensures AcceptedScore(input).Some? ==> AcceptedScore(input).value == ParseInt(input).value
  {
  }

  /** `updateGrade`: empty input deletes the course's score; input that parses
      to NaN or to a value outside [0, 100] is rejected and also deletes it;
      any other input stores its `parseInt` value. */
  function UpdateGrade(scores: Scores, key: string, input: string): (r: Scores)
    ensures key in r <==> ValidInput(input)
    ensures key in r ==> r[key] == Num(ParseInt(input).value)
    ensures forall k | k != key :: SameEntry(scores, r, k)
  {
    AcceptedScoreIffValid(input);
    match AcceptedScore(input)
    case None => scores - {key}
    case Some(n) => scores[key := Num(n)]
  }

  /** A map holding only scores in [0, 100] keeps that property under `updateGrade`. */
  lemma UpdateGradeKeepsWellFormed(scores: Scores, key: string, input: string)
    requires WellFormed(scores)
    ensures WellFormed(UpdateGrade(scores, key, input))
  {
    var r := UpdateGrade(scores, key, input);
    forall k | k in r
      ensures r[k].Num? && 0 <= r[k].n <= 100
    {
      if k != key {
        assert SameEntry(scores, r, k);
      }
    }
  }

  /** A fractional score is not rejected: `parseInt` keeps its integer part. */
  lemma FractionalInputTruncated(scores: Scores, key: string)
    ensures UpdateGrade(scores, key, "40.5") == scores[key := Num(40)]
  {
    assert "40" + ".5" == "40.5";
    DigitRunStops("40", ".5", 10);
    assert Value("40", 10) == 40 by { assert "40"[..1] == "4"; }
    ParseIntOfDecimal("40.5");
    assert AcceptedScore("40.5") == Some(40);
  }

  /** Typing the same input twice leaves the map as typing it once. */
  lemma UpdateGradeIdempotent(scores: Scores, key: string, input: string)
    ensures UpdateGrade(UpdateGrade(scores, key, input), key, input) == UpdateGrade(scores, key, input)
  {
    var once := UpdateGrade(scores, key, input);
    var twice := UpdateGrade(once, key, input);
    assert forall k :: SameEntry(once, twice, k);
    assert twice.Keys == once.Keys;
  }

  /** `confirmClearScores`: the score map becomes empty. */
  function ConfirmClearScores(scores: Scores): (r: Scores)
    ensures forall k :: k !in r
  {
    map[]
  }

  // ---------------------------------------------------------------------------
  // First pass: validation
  // ---------------------------------------------------------------------------

  /** The stored value counts as entered: not missing, null or the empty string. */
  predicate Recorded(v: Stored) {
    match v
    case Num(_) => true
    case Str(s) => s != ""
    case Null => false
  }

  /** `parseInt(score)` of a stored value (a number is rendered, then parsed). */
  function StoredParse(v: Stored): Option<int> {
    match v
    case Num(n) => ParseInt(IntToString(n))
    case Str(s) => ParseInt(s)
    case Null => None
  }

  /** The score stored under `key` is entered but is NaN or outside [0, 100]. */
  predicate Offending(scores: Scores, key: string) {
    key in scores && Recorded(scores[key]) &&
    match StoredParse(scores[key])
    case None => true
    case Some(n) => n < 0 || n > 100
  }

  predicate BadCourse(level: int, scores: Scores, c: Course) {
    Offending(scores, CourseKey(level, c.code))
  }

  /** The first pass over the selected courses: whether any score is invalid,
      and the codes of the invalid ones whose input field is on the page
      (`rendered` holds the keys the page found an input element for). */
  function FirstPass(cs: seq<Course>, level: int, scores: Scores, rendered: set<string>)
    : (r: (bool, seq<string>))
  {
    if cs == [] then (false, [])
    else
      var (bad, codes) := FirstPass(cs[..|cs| - 1], level, scores, rendered);
      var c := cs[|cs| - 1];
      if BadCourse(level, scores, c) then
        (true, if CourseKey(level, c.code) in rendered then codes + [c.code] else codes)
      else (bad, codes)
  }

  /** The first pass flags invalid scores exactly when some course has one,
      and reports the code of every such course whose input is on the page,
      and of no other course. */
  lemma {:induction false} FirstPassReports(cs: seq<Course>, level: int, scores: Scores, rendered: set<string>)
    ensures FirstPass(cs, level, scores, rendered).0 <==> exists c | c in cs :: BadCourse(level, scores, c)
    ensures forall code | code in FirstPass(cs, level, scores, rendered).1 ::
              exists c | c in cs :: c.code == code && BadCourse(level, scores, c)
                                   && CourseKey(level, c.code) in rendered
    ensures forall c | c in cs && BadCourse(level, scores, c) && CourseKey(level, c.code) in rendered ::
              c.code in FirstPass(cs, level, scores, rendered).1
  {
    if cs != [] {
      var init := cs[..|cs| - 1];
      var c := cs[|cs| - 1];
      assert cs == init + [c];
      FirstPassReports(init, level, scores, rendered);
    }
  }

  // ---------------------------------------------------------------------------
  // Second pass: totals
  // ---------------------------------------------------------------------------

  /** JavaScript truthiness of a stored value: 0, "" and null are false. */
  predicate Truthy(v: Stored) {
    match v
    case Num(n) => n != 0
    case Str(s) => s != ""
    case Null => false
  }

  /** The numeric value `isNaN` tests and the grade lookup receives. */
  function NumericValue(v: Stored): Option<real> {
    match v
    case Num(n) => Some(n as real)
    case Str(s) => ToNumber(s)
    case Null => Some(0.0)
  }

  /** The score the second pass counts for `key`, if it counts one at all:
      the stored value must be truthy and not NaN. */
  function CountedScore(scores: Scores, key: string): Option<real> {
    if key in scores && Truthy(scores[key]) && NumericValue(scores[key]).Some?
    then NumericValue(scores[key]) else None
  }

  /** Credit and quality-point totals. */
  datatype Totals = Totals(credits: int, points: int) {
    function Plus(other: Totals): Totals {
      Totals(credits + other.credits, points + other.points)
    }
    function Minus(other: Totals): Totals {
      Totals(credits - other.credits, points - other.points)
    }
  }

  /** What one course adds to the totals. A course with no stored score, or
      with the stored number 0, adds nothing; a course with a stored non-zero
      number adds its credits and credits times the grade point. */
  function Contribution(level: int, scores: Scores, gp: real -> nat, c: Course): (r: Totals)
    ensures var key := CourseKey(level, c.code);
            key !in scores || scores[key] == Num(0) || scores[key] == Null ==> r == Totals(0, 0)
    ensures var key := CourseKey(level, c.code);
            key in scores && scores[key].Num? && scores[key].n != 0 ==>
              r == Totals(c.credits, c.credits * gp(scores[key].n as real))
    ensures var key := CourseKey(level, c.code);
            key in scores && scores[key].Str? ==>
              r == (if scores[key].s != "" && ToNumber(scores[key].s).Some?
                    then Totals(c.credits, c.credits * gp(ToNumber(scores[key].s).value))
                    else Totals(0, 0))
    ensures r == Totals(0, 0) || r.credits == c.credits
  {
    match CountedScore(scores, CourseKey(level, c.code))
    case None => Totals(0, 0)
    case Some(s) => Totals(c.credits, c.credits * gp(s))
  }

  /** `Contribution` as a function of the course alone. */
  function ContributionOf(level: int, scores: Scores, gp: real -> nat): Course -> Totals {
    c => Contribution(level, scores, gp, c)
  }

  /** The sum of a per-course quantity over a course list, first to last. */
  function SumOver(cs: seq<Course>, f: Course -> Totals): Totals {
    if cs == [] then Totals(0, 0) else SumOver(cs[..|cs| - 1], f).Plus(f(cs[|cs| - 1]))
  }

  /** The totals of the second pass over `cs`. */
  function SecondPass(cs: seq<Course>, level: int, scores: Scores, gp: real -> nat): Totals {
    SumOver(cs, ContributionOf(level, scores, gp))
  }

  /** The final figure: quality points over credits, or 0 without credits. */
  function Average(t: Totals): (r: real)
    ensures t.credits > 0 ==> r * t.credits as real == t.points as real
    ensures t.credits <= 0 ==> r == 0.0
  {
    if t.credits > 0 then t.points as real / t.credits as real else 0.0
  }

  // ---------------------------------------------------------------------------
  // calculateResults
  // ---------------------------------------------------------------------------

  /** Either the calculation stops at invalid scores, reporting the codes it
      could highlight, or it produces totals and the GPA/CGPA. */
  datatype Outcome = InvalidScores(codes: seq<string>) | Results(credits: int, qualityPoints: int, gpa: real)

  /** The two passes of `calculateResults` over the selected courses. */
  function Calculate(cs: seq<Course>, level: int, scores: Scores, rendered: set<string>, gp: real -> nat)
    : (r: Outcome)
    ensures r.Results? && r.credits > 0 ==> r.gpa * r.credits as real == r.qualityPoints as real
    ensures r.Results? && r.credits <= 0 ==> r.gpa == 0.0
  {
    var (bad, codes) := FirstPass(cs, level, scores, rendered);
    if bad then InvalidScores(codes) else ResultsOf(SecondPass(cs, level, scores, gp))
  }

  /** The results reported for totals `t`. */
  function ResultsOf(t: Totals): (r: Outcome)
    ensures r.Results? && r.credits == t.credits && r.qualityPoints == t.points
    ensures t.credits > 0 ==> r.gpa * t.credits as real == t.points as real
    ensures t.credits <= 0 ==> r.gpa == 0.0
  {
    Results(t.credits, t.points, Average(t))
  }

  /** The calculation aborts exactly when some selected course has an offending
      score, and every code it reports belongs to such a course. */
  lemma CalculateAbortsIffOffending(cs: seq<Course>, level: int, scores: Scores, rendered: set<string>,
                                    gp: real -> nat)
    ensures Calculate(cs, level, scores, rendered, gp).InvalidScores? <==>
              exists c | c in cs :: BadCourse(level, scores, c)
    ensures Calculate(cs, level, scores, rendered, gp).InvalidScores? ==>
              forall code | code in Calculate(cs, level, scores, rendered, gp).codes ::
                exists c | c in cs :: c.code == code && BadCourse(level, scores, c)
  {
    FirstPassReports(cs, level, scores, rendered);
  }

  /** The first `forEach` of `calculateResults`: validate every selected score. */
  method ValidateScores(courses: seq<Course>, level: int, scores: Scores, rendered: set<string>)
    returns (hasInvalidScores: bool, invalidInputs: seq<string>)
    ensures (hasInvalidScores, invalidInputs) == FirstPass(courses, level, scores, rendered)
  {
    hasInvalidScores := false;
    invalidInputs := [];
    var i := 0;
    while i < |courses|
      invariant 0 <= i <= |courses|
      invariant (hasInvalidScores, invalidInputs) == FirstPass(courses[..i], level, scores, rendered)
    {
      var course := courses[i];
      var key := CourseKey(level, course.code);
      if Offending(scores, key) {
        hasInvalidScores := true;
        if key in rendered {
          invalidInputs := invalidInputs + [course.code];
        }
      }
      FirstPassStep(courses, i, level, scores, rendered);
      i := i + 1;
    }
    assert courses[..i] == courses;
  }

  /** One turn of the first loop: course `i` either sets the flag (and
      adds its code when its input is on the page) or leaves both as they were. */
  lemma FirstPassStep(courses: seq<Course>, i: nat, level: int, scores: Scores, rendered: set<string>)
    requires i < |courses|
    ensures var (bad, codes) := FirstPass(courses[..i], level, scores, rendered);
            var key := CourseKey(level, courses[i].code);
            FirstPass(courses[..i + 1], level, scores, rendered)
            == if Offending(scores, key) then (true, if key in rendered then codes + [courses[i].code] else codes)
               else (bad, codes)
  {
    assert courses[..i + 1][..i] == courses[..i];
  }

  /** The second `forEach` of `calculateResults`: accumulate credits and quality points. */
  method SumScores(courses: seq<Course>, level: int, scores: Scores, gp: real -> nat)
    returns (totalCredits: int, totalQualityPoints: int)
    ensures Totals(totalCredits, totalQualityPoints) == SecondPass(courses, level, scores, gp)
  {
    totalCredits := 0;
    totalQualityPoints := 0;
    var i := 0;
    while i < |courses|
      invariant 0 <= i <= |courses|
      invariant Totals(totalCredits, totalQualityPoints) == SecondPass(courses[..i], level, scores, gp)
    {
      var course := courses[i];
      var key := CourseKey(level, course.code);
      var before := Totals(totalCredits, totalQualityPoints);
      var score := CountedScore(scores, key);
      if score.Some? {
        var point := gp(score.value);
        totalCredits := totalCredits + course.credits;
        totalQualityPoints := totalQualityPoints + course.credits * point;
      }
      assert Totals(totalCredits, totalQualityPoints) == before.Plus(Contribution(level, scores, gp, course));
      SecondPassStep(courses, i, level, scores, gp);
      i := i + 1;
    }
    assert courses[..i] == courses;
  }

  /** One turn of the second loop: the totals of the first `i + 1` courses are
      those of the first `i` plus course `i`'s contribution. */
  lemma SecondPassStep(courses: seq<Course>, i: nat, level: int, scores: Scores, gp: real -> nat)
    requires i < |courses|
    ensures SecondPass(courses[..i + 1], level, scores, gp)
            == SecondPass(courses[..i], level, scores, gp).Plus(Contribution(level, scores, gp, courses[i]))
  {
    assert courses[..i + 1][..i] == courses[..i];
  }

  /** `calculateResults`: select the courses, validate, then total and average. */
  method CalculateResults(db: Catalog, level: int, calculationType: string, scores: Scores,
                          rendered: set<string>, gp: real -> nat) returns (r: Outcome)
    ensures r == Calculate(CoursesFor(db, level, calculationType), level, scores, rendered, gp)
  {
    var courses := CoursesFor(db, level, calculationType);
    var hasInvalidScores, invalidInputs := ValidateScores(courses, level, scores, rendered);
    if hasInvalidScores {
      return InvalidScores(invalidInputs);
    }
    var totalCredits, totalQualityPoints := SumScores(courses, level, scores, gp);
    var finalResult := 0.0;
    if totalCredits > 0 {
      finalResult := totalQualityPoints as real / totalCredits as real;
    }
    r := Results(totalCredits, totalQualityPoints, finalResult);
  }

  // ---------------------------------------------------------------------------
  // Properties of the aggregation
  // ---------------------------------------------------------------------------

  /** Sums over two course lists add up. */
  lemma {:induction false} SumOverAppend(a: seq<Course>, b: seq<Course>, f: Course -> Totals)
    ensures SumOver(a + b, f) == SumOver(a, f).Plus(SumOver(b, f))
    decreases |b|
  {
    if b == [] {
      assert a + b == a;
    } else {
      var init := b[..|b| - 1];
      assert (a + b)[..|a + b| - 1] == a + init;
      assert (a + b)[|a + b| - 1] == b[|b| - 1];
      SumOverAppend(a, init, f);
    }
  }

  /** Sums of two quantities that agree on every course of the list are equal. */
  lemma {:induction false} SumOverAgree(cs: seq<Course>, f: Course -> Totals, g: Course -> Totals)
    requires forall c | c in cs :: f(c) == g(c)
    ensures SumOver(cs, f) == SumOver(cs, g)
  {
    if cs != [] {
      var init := cs[..|cs| - 1];
      assert forall x | x in init :: x in cs;
      SumOverAgree(init, f, g);
    }
  }

  /** Changing the quantity at one course of a list without repeated codes
      changes the sum by that course's difference alone. */
  lemma {:induction false} SumOverChangeOne(cs: seq<Course>, j: nat, f: Course -> Totals, g: Course -> Totals)
    requires j < |cs|
    requires forall c | c in cs && c.code != cs[j].code :: f(c) == g(c)
    requires DistinctCodes(cs)
    ensures SumOver(cs, g) == SumOver(cs, f).Minus(f(cs[j])).Plus(g(cs[j]))
  {
    var init := cs[..|cs| - 1];
    var last := cs[|cs| - 1];
    if j == |cs| - 1 {
      forall c | c in init
        ensures f(c) == g(c)
      {
        var i :| 0 <= i < |init| && init[i] == c;
        assert cs[i] == c;
      }
      SumOverAgree(init, f, g);
    } else {
      assert forall x | x in init :: x in cs;
      assert init[j] == cs[j];
      SumOverChangeOne(init, j, f, g);
    }
  }

  /** Sums of non-negative credits whose points are at most `top` per credit
      keep both properties. */
  lemma {:induction false} SumOverBounds(cs: seq<Course>, f: Course -> Totals, top: nat)
    requires forall c | c in cs :: 0 <= f(c).credits && 0 <= f(c).points <= top * f(c).credits
    ensures 0 <= SumOver(cs, f).credits && 0 <= SumOver(cs, f).points <= top * SumOver(cs, f).credits
  {
    if cs != [] {
      var init := cs[..|cs| - 1];
      assert forall x | x in init :: x in cs;
      SumOverBounds(init, f, top);
      var t0 := SumOver(init, f);
      var t1 := f(cs[|cs| - 1]);
      assert top * (t0.credits + t1.credits) == top * t0.credits + top * t1.credits;
    }
  }

  /** Calculating over two lists at once aborts exactly when calculating over
      one of them would, and otherwise adds up their totals. */
  lemma CalculateAppend(s1: seq<Course>, s2: seq<Course>, level: int, scores: Scores,
                        rendered: set<string>, gp: real -> nat)
    ensures var both := Calculate(s1 + s2, level, scores, rendered, gp);
            var first := Calculate(s1, level, scores, rendered, gp);
            var second := Calculate(s2, level, scores, rendered, gp);
            && (both.InvalidScores? <==> first.InvalidScores? || second.InvalidScores?)
            && (both.Results? ==>
                  both.credits == first.credits + second.credits
                  && both.qualityPoints == first.qualityPoints + second.qualityPoints)
  {
    var both := Calculate(s1 + s2, level, scores, rendered, gp);
    CalculateAbortsIffOffending(s1 + s2, level, scores, rendered, gp);
    CalculateAbortsIffOffending(s1, level, scores, rendered, gp);
    CalculateAbortsIffOffending(s2, level, scores, rendered, gp);
    assert forall c | c in s1 :: c in s1 + s2;
    assert forall c | c in s2 :: c in s1 + s2;
    if both.InvalidScores? {
      var c :| c in s1 + s2 && BadCourse(level, scores, c);
      assert c in s1 || c in s2;
    } else {
      SumOverAppend(s1, s2, ContributionOf(level, scores, gp));
    }
  }

  /** CGPA mode aborts exactly when one of the semesters would, and otherwise
      its totals are the sums of the two semesters' totals. */
  lemma CumulativeIsSumOfSemesters(db: Catalog, level: int, scores: Scores, rendered: set<string>,
                                   gp: real -> nat)
    ensures var both := Calculate(CoursesFor(db, level, "cgpa"), level, scores, rendered, gp);
            var first := Calculate(CoursesFor(db, level, "semester1"), level, scores, rendered, gp);
            var second := Calculate(CoursesFor(db, level, "semester2"), level, scores, rendered, gp);
            && (both.InvalidScores? <==> first.InvalidScores? || second.InvalidScores?)
            && (both.Results? ==>
                  both.credits == first.credits + second.credits
                  && both.qualityPoints == first.qualityPoints + second.qualityPoints)
  {
    CalculateAppend(SemesterCourses(db, level, "1"), SemesterCourses(db, level, "2"), level, scores, rendered, gp);
  }

  /** Every stored text is in integer form, the only form in which `parseInt`
      (which validates) and `Number` (which feeds the grade lookup) agree.
      Maps written by `updateGrade` hold no text at all. */
  predicate IntegerScores(scores: Scores) {
    forall k | k in scores && scores[k].Str? :: IntegerText(scores[k].s)
  }

  /** A course counted by the second pass of a run that passed validation has
      a score in [0, 100], provided a stored text is in integer form. */
  lemma CountedScoreInRange(scores: Scores, key: string)
    requires !Offending(scores, key)
    requires CountedScore(scores, key).Some?
    requires scores[key].Str? ==> IntegerText(scores[key].s)
    ensures 0.0 <= CountedScore(scores, key).value <= 100.0
  {
    match scores[key]
    case Num(n) =>
      ParseIntOfIntToString(n);
    case Str(s) =>
      ToNumberAgreesWithParseInt(s);
    case Null =>
  }

  /** Stored text outside integer form can pass validation as one value and be
      graded as another: "1e3" validates as 1 but is graded as 1000, so the
      grade lookup is applied outside [0, 100]. */
  lemma ExponentTextGradedAsThousand(level: int, c: Course, rendered: set<string>, gp: real -> nat,
                                     scores: Scores)
    requires scores == map[CourseKey(level, c.code) := Str("1e3")]
    ensures !BadCourse(level, scores, c)
    ensures var r := Calculate([c], level, scores, rendered, gp);
            r.Results? && r.credits == c.credits && r.qualityPoints == c.credits * gp(1000.0)
  {
    var key := CourseKey(level, c.code);
    ExponentScore(scores, key);
    assert !BadCourse(level, scores, c);
    SingleCourseFirstPass(c, level, scores, rendered);
    var f := ContributionOf(level, scores, gp);
    assert f(c) == Totals(c.credits, c.credits * gp(1000.0));
    SingleCourseSum(c, f);
  }

  lemma ExponentScore(scores: Scores, key: string)
    requires key in scores && scores[key] == Str("1e3")
    ensures StoredParse(scores[key]) == Some(1) && CountedScore(scores, key) == Some(1000.0)
  {
    var s := scores[key].s;
    ExponentExample(s);
    assert Truthy(scores[key]) && NumericValue(scores[key]) == Some(1000.0);
  }

  lemma SingleCourseFirstPass(c: Course, level: int, scores: Scores, rendered: set<string>)
    requires !BadCourse(level, scores, c)
    ensures FirstPass([c], level, scores, rendered) == (false, [])
  {
    assert [c][..0] == [];
  }

  lemma SingleCourseSum(c: Course, f: Course -> Totals)
    ensures SumOver([c], f) == f(c)
  {
    assert [c][..0] == [];
  }

  /** Stored "Infinity", signed or not, is an offending score: `parseInt`
      reads it as NaN, so the calculation stops before the second pass, where
      `Number` would read an infinite number. */
  lemma InfinityTextIsOffending(scores: Scores, key: string, sign: string)
    requires sign == "" || sign == "+" || sign == "-"
    requires key in scores && scores[key] == Str(sign + "Infinity")
    ensures Offending(scores, key)
  {
    var t := sign + "Infinity";
    assert !IsSpace(t[0]) by {
      if sign != "" { assert t[0] == sign[0]; } else { assert t[0] == 'I'; }
    }
    assert TrimStart(t) == t;
    assert SplitSign(t).1 == "Infinity" by {
      if sign != "" { assert t[1..] == "Infinity"; } else { assert t == "Infinity"; }
    }
    assert DigitRun("Infinity", 10) == [];
    assert ParseInt(t) == None;
  }

  /** Two grade-point mappings that agree on [0, 100] give the same outcome:
      the grade point is only ever looked up for scores in that range. */
  lemma GradePointOutsideRangeIrrelevant(cs: seq<Course>, level: int, scores: Scores, rendered: set<string>,
                                         gp1: real -> nat, gp2: real -> nat)
    requires IntegerScores(scores)
    requires forall s: real :: 0.0 <= s <= 100.0 ==> gp1(s) == gp2(s)
    ensures Calculate(cs, level, scores, rendered, gp1) == Calculate(cs, level, scores, rendered, gp2)
  {
    FirstPassReports(cs, level, scores, rendered);
    if !FirstPass(cs, level, scores, rendered).0 {
      forall c | c in cs
        ensures ContributionOf(level, scores, gp1)(c) == ContributionOf(level, scores, gp2)(c)
      {
        var key := CourseKey(level, c.code);
        if CountedScore(scores, key).Some? {
          CountedScoreInRange(scores, key);
        }
      }
      SumOverAgree(cs, ContributionOf(level, scores, gp1), ContributionOf(level, scores, gp2));
    }
  }

  lemma MulMonotone(a: nat, g: nat, top: nat)
    requires g <= top
    ensures 0 <= a * g <= top * a
  {
  }

  /** A validated course adds at most `top` quality points per credit. */
  lemma ContributionBound(level: int, scores: Scores, gp: real -> nat, top: nat, c: Course)
    requires !BadCourse(level, scores, c) && IntegerScores(scores)
    requires forall s: real :: 0.0 <= s <= 100.0 ==> gp(s) <= top
    ensures var t := Contribution(level, scores, gp, c);
            0 <= t.credits && 0 <= t.points <= top * t.credits
  {
    var key := CourseKey(level, c.code);
    if CountedScore(scores, key).Some? {
      CountedScoreInRange(scores, key);
      var g := gp(CountedScore(scores, key).value);
      assert Contribution(level, scores, gp, c) == Totals(c.credits, c.credits * g);
      MulMonotone(c.credits, g, top);
    }
  }

  lemma RatioBound(p: int, c: int, top: nat)
    requires c > 0 && 0 <= p <= top * c
    ensures 0.0 <= p as real / c as real <= top as real
  {
    assert (top * c) as real == top as real * c as real;
    assert p as real <= top as real * c as real;
  }

  /** The GPA/CGPA lies on the grade-point scale: between 0 and the largest
      grade point awarded for a score in [0, 100]. */
  lemma AverageWithinScale(cs: seq<Course>, level: int, scores: Scores, rendered: set<string>,
                           gp: real -> nat, top: nat)
    requires IntegerScores(scores)
    requires forall s: real :: 0.0 <= s <= 100.0 ==> gp(s) <= top
    ensures var r := Calculate(cs, level, scores, rendered, gp);
            r.Results? ==> 0 <= r.credits && 0.0 <= r.gpa <= top as real
  {
    var r := Calculate(cs, level, scores, rendered, gp);
    CalculateAbortsIffOffending(cs, level, scores, rendered, gp);
    if r.Results? {
      var f := ContributionOf(level, scores, gp);
      forall c | c in cs
        ensures 0 <= f(c).credits && 0 <= f(c).points <= top * f(c).credits
      {
        assert f(c) == Contribution(level, scores, gp, c);
        ContributionBound(level, scores, gp, top, c);
      }
      SumOverBounds(cs, f, top);
      if r.credits > 0 {
        RatioBound(r.qualityPoints, r.credits, top);
      }
    }
  }

  /** Scores written only through `updateGrade` never make the calculation abort. */
  lemma WellFormedNeverAborts(cs: seq<Course>, level: int, scores: Scores, rendered: set<string>,
                              gp: real -> nat)
    requires WellFormed(scores)
    ensures Calculate(cs, level, scores, rendered, gp).Results?
  {
    CalculateAbortsIffOffending(cs, level, scores, rendered, gp);
    forall c | c in cs
      ensures !BadCourse(level, scores, c)
    {
      var key := CourseKey(level, c.code);
      if key in scores {
        ParseIntOfIntToString(scores[key].n);
      }
    }
  }

  /** No two courses of the list share a code. */
  predicate DistinctCodes(cs: seq<Course>) {
    forall i, j | 0 <= i < j < |cs| :: cs[i].code != cs[j].code
  }

  /** Typing into one course's score field changes the totals by exactly that
      course's change in contribution; every other course contributes as before. */
  lemma UpdateChangesOnlyThatCourse(cs: seq<Course>, level: int, scores: Scores,
                                    j: nat, input: string, gp: real -> nat)
    requires j < |cs| && DistinctCodes(cs)
    ensures var updated := UpdateGrade(scores, CourseKey(level, cs[j].code), input);
            (SecondPass(cs, level, updated, gp)
             == SecondPass(cs, level, scores, gp)
                  .Minus(Contribution(level, scores, gp, cs[j]))
                  .Plus(Contribution(level, updated, gp, cs[j])))
  {
    var key := CourseKey(level, cs[j].code);
    var updated := UpdateGrade(scores, key, input);
    var f := ContributionOf(level, scores, gp);
    var g := ContributionOf(level, updated, gp);
    forall c | c in cs && c.code != cs[j].code
      ensures f(c) == g(c)
    {
      if CourseKey(level, c.code) == key {
        CourseKeyInjective(level, c.code, cs[j].code);
      }
      assert SameEntry(scores, updated, CourseKey(level, c.code));
    }
    SumOverChangeOne(cs, j, f, g);
  }

  /** After clearing, every selection yields zero credits, zero quality points
      and a result of 0. */
  lemma ClearedScoresGiveZero(cs: seq<Course>, level: int, scores: Scores, rendered: set<string>,
                              gp: real -> nat)
    ensures Calculate(cs, level, ConfirmClearScores(scores), rendered, gp) == Results(0, 0, 0.0)
  {
    var cleared := ConfirmClearScores(scores);
    CalculateAbortsIffOffending(cs, level, cleared, rendered, gp);
    var f := ContributionOf(level, cleared, gp);
    SumOverAgree(cs, f, (c: Course) => Totals(0, 0));
    ZeroSum(cs);
  }

  lemma {:induction false} ZeroSum(cs: seq<Course>)
    ensures SumOver(cs, (c: Course) => Totals(0, 0)) == Totals(0, 0)
  {
    if cs != [] {
      ZeroSum(cs[..|cs| - 1]);
    }
  }

  // ---------------------------------------------------------------------------
  // Grade colours
  // ---------------------------------------------------------------------------

  /** `getGradeColor`: the text colour class of a letter grade. */
  function GradeColor(grade: string): (r: string)
    ensures r == "text-gray-500" <==> !(grade in ["A", "B", "C", "D", "E", "F"])
    ensures grade == "A" ==> r == "text-green-600"
    ensures grade == "F" ==> r == "text-red-600"
  {
    if grade == "A" then "text-green-600"
    else if grade == "B" then "text-blue-600"
    else if grade == "C" then "text-yellow-600"
    else if grade == "D" then "text-orange-600"
    else if grade == "E" then "text-red-500"
    else if grade == "F" then "text-red-600"
    else "text-gray-500"
  }

  /** The six letters get six different colours. */
  lemma GradeColorsDistinct(g1: string, g2: string)
    requires g1 in ["A", "B", "C", "D", "E", "F"] && g2 in ["A", "B", "C", "D", "E", "F"]
    requires g1 != g2
    ensures GradeColor(g1) != GradeColor(g2)
  {
  }
}
