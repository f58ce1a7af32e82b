/** The course browser: the student's enrolled credits, the 24-credit limit
    that decides which course cards offer enrolment, the search and semester
    filters, and the credit figures of the enrolment dialog. */
module Enrolment {
  import opened Wrappers
  import opened JsText
  import opened Seqs

  /** The per-student credit ceiling. */
  const MaxCredits: int := 24

  /** One entry of the student's enrolment list as the API returns it. */
  datatype Enrolled = Enrolled(id: int, status: string, credits: Option<int>)

  /** One course of the level's catalog as the API returns it. */
  datatype CatalogCourse = CatalogCourse(id: int, code: string, name: string, credits: Option<int>,
                                         semester: int, level: int)

  /** `credits || 0`: a missing (or zero) credit count reads as 0. */
  function CreditsOrZero(credits: Option<int>): int {
    credits.GetOr(0)
  }

  // ---------------------------------------------------------------------------
  // Enrolled courses and their credits
  // ---------------------------------------------------------------------------

  predicate IsEnrolled(e: Enrolled) {
    e.status == "enrolled"
  }

  /** `enrollments.filter(e => e.status === 'enrolled')`. */
  function EnrolledCourses(enrollments: seq<Enrolled>): (r: seq<Enrolled>)
    ensures IsSubsequence(r, enrollments)
    ensures forall e | e in r :: e.status == "enrolled"
    ensures forall e :: multiset(r)[e] == if e.status == "enrolled" then multiset(enrollments)[e] else 0
  {
    Filter(IsEnrolled, enrollments)
  }

  /** `.map(e => e.id)` over the enrolled entries. */
  function EnrolledCourseIds(enrollments: seq<Enrolled>): (r: seq<int>)
    ensures |r| == |EnrolledCourses(enrollments)|
    ensures forall i :: 0 <= i < |r| ==> r[i] == EnrolledCourses(enrollments)[i].id
  {
    var enrolled := EnrolledCourses(enrollments);
    seq(|enrolled|, i requires 0 <= i < |enrolled| => enrolled[i].id)
  }

  /** The credits of a list of enrolments, each missing value counted as 0. */
  function SumCredits(es: seq<Enrolled>): int {
    if es == [] then 0 else SumCredits(es[..|es| - 1]) + CreditsOrZero(es[|es| - 1].credits)
  }

  lemma {:induction false} SumCreditsAppend(a: seq<Enrolled>, b: seq<Enrolled>)
    ensures SumCredits(a + b) == SumCredits(a) + SumCredits(b)
    decreases |b|
  {
    if b != [] {
      assert (a + b)[..|a + b| - 1] == a + b[..|b| - 1];
      assert (a + b)[|a + b| - 1] == b[|b| - 1];
      SumCreditsAppend(a, b[..|b| - 1]);
    } else {
      assert a + b == a;
    }
  }

  /** Entries without a credit count add nothing to the total, and the total
      of entries with non-negative credits is non-negative. */
  lemma {:induction false} SumCreditsNonNegative(es: seq<Enrolled>)
    requires forall e | e in es :: CreditsOrZero(e.credits) >= 0
    ensures SumCredits(es) >= 0
  {
    if es != [] {
      assert forall e | e in es[..|es| - 1] :: e in es;
      SumCreditsNonNegative(es[..|es| - 1]);
    }
  }

  /** `getTotalEnrolledCredits`: the `reduce` over the enrolled courses. */
  method TotalEnrolledCredits(enrolledCourses: seq<Enrolled>) returns (total: int)
    ensures total == SumCredits(enrolledCourses)
    ensures (forall e | e in enrolledCourses :: e.credits == None) ==> total == 0
  {
    total := 0;
    var i := 0;
    while i < |enrolledCourses|
      invariant 0 <= i <= |enrolledCourses|
      invariant total == SumCredits(enrolledCourses[..i])
      invariant (forall e | e in enrolledCourses :: e.credits == None) ==> total == 0
    {
      total := total + CreditsOrZero(enrolledCourses[i].credits);
      assert enrolledCourses[..i + 1][..i] == enrolledCourses[..i];
      i := i + 1;
    }
    assert enrolledCourses[..i] == enrolledCourses;
  }

  // ---------------------------------------------------------------------------
  // The credit limit on a course card
  // ---------------------------------------------------------------------------

  /** Enrolling in a course of `credits` credits would take the student past the limit. */
  predicate WouldExceedLimit(total: int, credits: int) {
    total + credits > MaxCredits
  }

  /** The action button a course card shows. */
  datatype Action = AlreadyEnrolled | CreditLimit | EnrollNow

  /** What `displayCourses` decides for one course. */
  datatype Card = Card(enrolled: bool, wouldExceed: bool, canEnroll: bool, action: Action,
                       shortfallNote: bool)

  /** The decisions `displayCourses` makes for one course, given the ids the
      student is enrolled in and the student's enrolled credits. */
  function CourseCard(enrolledIds: seq<int>, total: int, course: CatalogCourse): (r: Card)
    ensures r.enrolled <==> course.id in enrolledIds
    ensures r.wouldExceed <==> total + CreditsOrZero(course.credits) > 24
    ensures r.canEnroll ==> !r.enrolled && total < 24 && total + CreditsOrZero(course.credits) <= 24
    ensures r.action == EnrollNow <==> !r.enrolled && !r.wouldExceed
    ensures r.action == AlreadyEnrolled <==> r.enrolled
    ensures r.shortfallNote <==> r.action == CreditLimit
  {
    var isEnrolled := course.id in enrolledIds;
    var courseCredits := CreditsOrZero(course.credits);
    var wouldExceed := WouldExceedLimit(total, courseCredits);
    var canEnroll := !isEnrolled && !wouldExceed && total < MaxCredits;
    var action := if isEnrolled then AlreadyEnrolled else if wouldExceed then CreditLimit else EnrollNow;
    Card(isEnrolled, wouldExceed, canEnroll, action, wouldExceed && !isEnrolled)
  }

  /** The button ignores `canEnroll`: for courses with non-negative credits it
      offers enrolment while `canEnroll` is false exactly when the student
      already holds 24 credits and the course carries none. */
  lemma EnrollOfferedBeyondCanEnroll(enrolledIds: seq<int>, total: int, course: CatalogCourse)
    requires CreditsOrZero(course.credits) >= 0
    ensures var card := CourseCard(enrolledIds, total, course);
            (card.action == EnrollNow && !card.canEnroll)
            <==> (course.id !in enrolledIds && total == 24 && CreditsOrZero(course.credits) == 0)
  {
  }

  /** `displayCourses`: one card per course, in order, all judged against the same total. */
  function DisplayCourses(courses: seq<CatalogCourse>, enrolledIds: seq<int>, total: int): (r: seq<Card>)
    ensures |r| == |courses|
    ensures forall i :: 0 <= i < |r| ==> (r[i].action == EnrollNow <==>
              courses[i].id !in enrolledIds && total + CreditsOrZero(courses[i].credits) <= 24)
  {
    seq(|courses|, i requires 0 <= i < |courses| => CourseCard(enrolledIds, total, courses[i]))
  }

  /** The credit summary panel: remaining credits and whether the ceiling is reached. */
  datatype CreditSummary = CreditSummary(total: int, remaining: int, maximumReached: bool)

  function CreditDisplay(total: int): (r: CreditSummary)
    ensures r.total == total && r.total + r.remaining == 24
    ensures r.maximumReached <==> r.remaining <= 0
  {
    CreditSummary(total, MaxCredits - total, total >= MaxCredits)
  }

  // ---------------------------------------------------------------------------
  // Search and semester filters
  // ---------------------------------------------------------------------------

  /** The course's name or code contains the (already lower-cased) search term. */
  predicate MatchesTerm(course: CatalogCourse, term: string) {
    Contains(ToLower(course.name), term) || Contains(ToLower(course.code), term)
  }

  /** The course passes the search box: an empty box passes everything. */
  predicate SearchHit(course: CatalogCourse, searchInput: string) {
    ToLower(searchInput) == "" || MatchesTerm(course, ToLower(searchInput))
  }

  /** The course passes the semester selector: an empty choice passes
      everything, otherwise the semester must equal `parseInt` of the choice. */
  predicate SemesterHit(course: CatalogCourse, semesterValue: string) {
    semesterValue == "" || ParseInt(semesterValue) == Some(course.semester)
  }

  /** `applyFilters`: first the search filter, then the semester filter. */
  function ApplyFilters(allCourses: seq<CatalogCourse>, searchInput: string, semesterValue: string)
    : (r: seq<CatalogCourse>)
    ensures IsSubsequence(r, allCourses)
    ensures forall c | c in r :: ToLower(searchInput) == "" || MatchesTerm(c, ToLower(searchInput))
    ensures semesterValue != "" ==> forall c | c in r :: ParseInt(semesterValue) == Some(c.semester)
    ensures forall c :: multiset(r)[c] ==
              if SearchHit(c, searchInput) && SemesterHit(c, semesterValue) then multiset(allCourses)[c] else 0
  {
    var searchTerm := ToLower(searchInput);
    var afterSearch :=
      if searchTerm != "" then Filter((c: CatalogCourse) => MatchesTerm(c, searchTerm), allCourses)
      else allCourses;
    var afterSemester :=
      if semesterValue != "" then Filter((c: CatalogCourse) => ParseInt(semesterValue) == Some(c.semester), afterSearch)
      else afterSearch;
    SubsequenceReflexive(allCourses);
    SubsequenceReflexive(afterSearch);
    SubsequenceTransitive(afterSemester, afterSearch, allCourses);
    afterSemester
  }

  /** A course the filters accept is shown. */
  lemma ApplyFiltersKeeps(allCourses: seq<CatalogCourse>, searchInput: string, semesterValue: string,
                          c: CatalogCourse)
    requires c in allCourses && SearchHit(c, searchInput) && SemesterHit(c, semesterValue)
    ensures c in ApplyFilters(allCourses, searchInput, semesterValue)
  {
    assert multiset(allCourses)[c] > 0;
    assert multiset(ApplyFilters(allCourses, searchInput, semesterValue))[c] > 0;
  }

  /** `clearFilters`: both controls emptied, the whole level's catalog is shown. */
  function ClearFilters(allCourses: seq<CatalogCourse>): (r: seq<CatalogCourse>)
    ensures r == ApplyFilters(allCourses, "", "")
  {
    allCourses
  }

  /** Empty controls show every course, in the catalog's order. */
  lemma EmptyFiltersShowAll(allCourses: seq<CatalogCourse>)
    ensures ApplyFilters(allCourses, "", "") == allCourses
  {
  }

  // ---------------------------------------------------------------------------
  // The enrolment dialog
  // ---------------------------------------------------------------------------

  /** The credit figures of the enrolment dialog. */
  datatype ModalFigures = ModalFigures(course: CatalogCourse, currentCredits: int, newTotal: int,
                                       remainingAfter: int)

  /** `allCourses.find(c => c.id === courseId)`: the first course with that id. */
  function FindCourse(allCourses: seq<CatalogCourse>, courseId: int): (r: Option<CatalogCourse>)
    ensures r.None? <==> forall c | c in allCourses :: c.id != courseId
    ensures r.Some? ==> exists i | 0 <= i < |allCourses| :: allCourses[i] == r.value
                          && r.value.id == courseId
                          && forall k | 0 <= k < i :: allCourses[k].id != courseId
  {
    if allCourses == [] then None
    else if allCourses[0].id == courseId then Some(allCourses[0])
    else
      var r := FindCourse(allCourses[1..], courseId);
      assert forall c | c in allCourses[1..] :: c in allCourses;
      if r.Some? then
        var i :| 0 <= i < |allCourses[1..]| && allCourses[1..][i] == r.value && r.value.id == courseId
                  && forall k | 0 <= k < i :: allCourses[1..][k].id != courseId;
        assert allCourses[i + 1] == r.value;
        assert forall k | 0 <= k < i + 1 :: allCourses[k].id != courseId by {
          forall k | 0 <= k < i + 1 ensures allCourses[k].id != courseId {
            if k > 0 { assert allCourses[k] == allCourses[1..][k - 1]; }
          }
        }
        r
      else
        assert allCourses == [allCourses[0]] + allCourses[1..];
        r
  }

  /** `showEnrollModal`: nothing for an unknown id, otherwise the current
      total, the total after enrolling and the credits left after that. */
  function EnrollModal(allCourses: seq<CatalogCourse>, courseId: int, total: int): (r: Option<ModalFigures>)
    ensures r.None? <==> forall c | c in allCourses :: c.id != courseId
    ensures r.Some? ==> r.value.course in allCourses && r.value.course.id == courseId
    ensures r.Some? ==> (r.value.currentCredits == total
                         && r.value.newTotal == total + CreditsOrZero(r.value.course.credits)
                         && r.value.newTotal + r.value.remainingAfter == 24)
    ensures r.Some? ==> (r.value.remainingAfter >= 0 <==>
                         !WouldExceedLimit(total, CreditsOrZero(r.value.course.credits)))
  {
    match FindCourse(allCourses, courseId)
    case None => None
    case Some(course) =>
      var newTotal := total + CreditsOrZero(course.credits);
      Some(ModalFigures(course, total, newTotal, MaxCredits - newTotal))
  }
}
