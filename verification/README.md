# Student portal core, modelled in Dafny

This project models the decision logic of a student academic portal and
proves properties about it. The portal's browser pages are a GPA/CGPA
calculator, a course enrolment browser, and the sign-in and registration
pages. A demo script prints course statistics. All the modelled logic is
pure: selections, filters, sums and map updates over course lists, score
maps and the browser's key/value store. Rendering, networking and timers are
not modelled.

Modules:

- `Wrappers`: the `Option` and `Result` types.
- `JsText`: the JavaScript string and number primitives the pages rely on.
  These are `trim`, `toLowerCase`, `includes`, `parseInt`, `Number` on a
  string, and the decimal rendering of an integer in a template literal.
  `Number` reads decimal literals with a fraction and an exponent, and
  unsigned hexadecimal, octal and binary text after a "0x", "0o" or "0b"
  prefix; its value is an exact rational.
- `Seqs`: order-preserving filtering (`Array.prototype.filter`) and the
  subsequence relation.
- `Cgpa` (`frontend/js/cgpa-calculator.js`): course selection by calculation
  type, the score-map update rule, the two-pass validate-then-aggregate
  computation, clearing, and grade colours.
- `Enrolment` (`frontend/js/courses.js`): enrolled credits, the 24-credit
  limit on course cards, the search and semester filters, and the enrolment
  dialog's figures.
- `Session` (`frontend/js/config.js`): token and user lookup, `isLoggedIn`,
  `isAdmin`, `logout`, request headers, and the 401 rule.
- `Auth` (`frontend/js/auth.js`): the ordered registration checks, the
  request body, and role-based landing pages.
- `CourseStats` (`api_demo_portfolio.py`): `get_course_statistics`.

Two functions the calculator calls are not part of this model:
`getGradeFromScore` and `coursesDatabase`. They appear as parameters. `gp`
maps a score to a grade point. `db` is a catalog from level to semester to
courses.

The model follows the code as written:

- A rejected score deletes the stored score instead of keeping the previous
  one.
- A fractional score such as "40.5" is accepted as 40, because `parseInt`
  reads the digit prefix.
- A stored number 0 adds nothing to the totals, because of the truthiness
  test in the second pass. Stored text "0" is truthy, so it counts with the
  grade for 0.
- The codes reported for invalid stored scores are only those whose input
  field is on the page.
- The "Enroll Now" button ignores `canEnroll`.
- Stored scores are validated with `parseInt` but graded with `Number`. For
  persisted text such as "1e3", the two give different values, so a score
  that passes as 1 is graded as 1000.

## Model

| member | source | states |
|---|---|---|
| `JsText.TrimIsSlice` | frontend/js/auth.js:91-95 | `trim` returns a slice of its input that neither starts nor ends with white space, with only white space outside it. So exactly the leading and trailing white space is removed. |
| `JsText.ToLower` | frontend/js/courses.js:218 | Lower-casing keeps the length and leaves no capital letter. Each capital becomes its small letter, and every other character is kept. |
| `JsText.ToLowerIdempotent` | frontend/js/courses.js:218 | Lower-casing twice is lower-casing once, and text without capitals is unchanged. This is why the already lower-cased search term can be compared with lower-cased names and codes. |
| `JsText.ParseIntReadsDigitPrefix` | frontend/js/cgpa-calculator.js:151 | `parseInt` of a decimal numeral followed by a non-digit that does not start a hex prefix returns the numeral's value, so "40.5" parses to 40. |
| `JsText.ParseIntOfIntToString` | frontend/js/cgpa-calculator.js:255 | `parseInt` of a rendered integer gives the integer back, so stored numbers re-parse to themselves. |
| `JsText.ToNumberAgreesWithParseInt` | frontend/js/cgpa-calculator.js:293 | For text in integer form that `parseInt` accepts, `Number` gives the same number. So for such text the second pass grades the value the first pass validated. |
| `JsText.NumberReadsBeyondParseInt` | frontend/js/cgpa-calculator.js:293 | Outside integer form the two differ: `Number` reads "1e3" as 1000, "40.5" as 40.5 and "0b1" as 1, where `parseInt` gives 1, 40 and 0. |
| `Seqs.Filter` | frontend/js/courses.js:225-233 | `filter` keeps exactly the elements satisfying the predicate, in order, each with its original multiplicity. |
| `Cgpa.CoursesFor` | frontend/js/cgpa-calculator.js:234-246 | `semester1` selects semester "1" of the level and `semester2` selects semester "2". `cgpa` selects semester 1 followed by semester 2. An unknown type or a missing level or semester selects nothing. |
| `Cgpa.CurrentLevel` | frontend/js/cgpa-calculator.js:7 | The current level is never 0. It is the user's level when that is set and non-zero, and 100 otherwise. |
| `Cgpa.CourseKeyInjective` | frontend/js/cgpa-calculator.js:250 | Within one level, distinct course codes give distinct `level-code` keys. |
| `Cgpa.UpdateGrade` | frontend/js/cgpa-calculator.js:141-167 | The key is present afterwards iff the input is non-empty and parses to an integer in [0, 100]. The stored value is then that integer. Empty or rejected input removes the key. Every other key is unchanged. |
| `Cgpa.UpdateGradeKeepsWellFormed` | frontend/js/cgpa-calculator.js:162-164 | A map holding only integer scores in [0, 100] still holds only such scores after any input. |
| `Cgpa.FractionalInputTruncated` | frontend/js/cgpa-calculator.js:151-164 | Typing "40.5" stores 40. |
| `Cgpa.UpdateGradeIdempotent` | frontend/js/cgpa-calculator.js:146-164 | Repeating the same input leaves the map as after the first time. |
| `Cgpa.ConfirmClearScores` | frontend/js/cgpa-calculator.js:391-394 | Clearing leaves no key in the score map. |
| `Cgpa.FirstPassReports` | frontend/js/cgpa-calculator.js:248-266 | The pass flags invalid scores iff some selected course has an entered score that is NaN or outside [0, 100]. Every reported code belongs to such a course with an input on the page, and every such course is reported. |
| `Cgpa.Contribution` | frontend/js/cgpa-calculator.js:289-297 | A course with no score, or with the stored number 0 or null, adds nothing. A stored non-zero number adds the course's credits and credits times its grade point. Stored text adds the credits and credits times the grade point of its `Number` value when it is non-empty and not NaN, and nothing otherwise, so the text "0" counts with the grade for 0. |
| `Cgpa.Calculate` | frontend/js/cgpa-calculator.js:300-304 | When results are produced, the GPA/CGPA times the credits equals the quality points if credits are positive, and the GPA/CGPA is 0 when there are no credits. |
| `Cgpa.CalculateAbortsIffOffending` | frontend/js/cgpa-calculator.js:248-275 | The calculation aborts iff some selected course has an offending score, and every reported code belongs to such a course. |
| `Cgpa.ValidateScores` | frontend/js/cgpa-calculator.js:249-266 | The validation loop computes the flag and the reported codes of the first pass. |
| `Cgpa.SumScores` | frontend/js/cgpa-calculator.js:289-298 | The totals loop computes the sum of the courses' contributions. |
| `Cgpa.CalculateResults` | frontend/js/cgpa-calculator.js:226-308 | `calculateResults` selects the courses for the calculation type and then produces the outcome of the two passes over them. |
| `Cgpa.CalculateAppend` | frontend/js/cgpa-calculator.js:289-297 | Over two course lists, the calculation aborts iff it aborts over one of them. Otherwise its credits and quality points are the sums of the two lists' totals. |
| `Cgpa.CumulativeIsSumOfSemesters` | frontend/js/cgpa-calculator.js:241-244 | CGPA mode aborts iff a semester would. Otherwise its credits and quality points are the sums of the two semesters' totals. |
| `Cgpa.CountedScoreInRange` | frontend/js/cgpa-calculator.js:254-256 | A score that passes validation and is counted by the second pass lies in [0, 100], when it is a stored number or text in integer form. |
| `Cgpa.ExponentTextGradedAsThousand` | frontend/js/cgpa-calculator.js:255-256 | Stored text "1e3" passes validation, because `parseInt` reads 1. The calculation then produces results whose quality points use the grade of 1000, because `Number` reads 1000. |
| `Cgpa.InfinityTextIsOffending` | frontend/js/cgpa-calculator.js:255-256 | Stored "Infinity", signed or not, is offending, so the calculation stops before the second pass. |
| `Cgpa.GradePointOutsideRangeIrrelevant` | frontend/js/cgpa-calculator.js:293-296 | When every stored text is in integer form, grade-point mappings that agree on [0, 100] give identical outcomes. |
| `Cgpa.ContributionBound` | frontend/js/cgpa-calculator.js:293-296 | When every stored text is in integer form, a validated course adds non-negative credits and at most the top grade point per credit. |
| `Cgpa.AverageWithinScale` | frontend/js/cgpa-calculator.js:300-304 | When every stored text is in integer form and results are produced, the GPA/CGPA lies between 0 and the largest grade point awarded for a score in [0, 100]. |
| `Cgpa.WellFormedNeverAborts` | frontend/js/cgpa-calculator.js:162-164 | Scores written only by `updateGrade` never make the calculation abort. |
| `Cgpa.UpdateChangesOnlyThatCourse` | frontend/js/cgpa-calculator.js:141-167 | Updating one course's score changes the totals by exactly that course's change in contribution. |
| `Cgpa.ClearedScoresGiveZero` | frontend/js/cgpa-calculator.js:391-394 | After clearing, every selection yields 0 credits, 0 quality points and a result of 0. |
| `Cgpa.GradeColor` | frontend/js/cgpa-calculator.js:213-223 | Grade colours: A is `text-green-600` and F is `text-red-600`. Anything other than A–F gets `text-gray-500`, and no letter gets gray. |
| `Cgpa.GradeColorsDistinct` | frontend/js/cgpa-calculator.js:214-221 | The six letters map to six different classes. |
| `Enrolment.EnrolledCourses` | frontend/js/courses.js:49-50 | Exactly the entries with status `enrolled` are kept, in order and with their multiplicities. |
| `Enrolment.EnrolledCourseIds` | frontend/js/courses.js:45-47 | The ids of the enrolled entries, in the same order. |
| `Enrolment.TotalEnrolledCredits` | frontend/js/courses.js:66-68 | The loop computes the sum of the credits, with a missing value counted as 0. A list with no credit values totals 0. |
| `Enrolment.SumCreditsAppend` | frontend/js/courses.js:67 | The credit total of two lists is the sum of their totals. |
| `Enrolment.SumCreditsNonNegative` | frontend/js/courses.js:67 | Non-negative credits give a non-negative total. |
| `Enrolment.CourseCard` | frontend/js/courses.js:137-201 | `wouldExceedLimit` iff total plus credits exceeds 24. `canEnroll` implies not enrolled, total below 24 and total plus credits at most 24. "Enroll Now" iff not enrolled and not over the limit. The shortfall note appears exactly with the "Credit Limit" button. |
| `Enrolment.EnrollOfferedBeyondCanEnroll` | frontend/js/courses.js:141-193 | For courses with non-negative credits, "Enroll Now" is shown while `canEnroll` is false exactly when the student holds 24 credits and the course carries 0. |
| `Enrolment.DisplayCourses` | frontend/js/courses.js:134-205 | One card per course, and each offers "Enroll Now" iff that course is not enrolled and fits under the limit. |
| `Enrolment.CreditDisplay` | frontend/js/courses.js:71-111 | The remaining credits plus the total is 24. "Maximum Reached" is shown iff nothing remains. |
| `Enrolment.ApplyFilters` | frontend/js/courses.js:209-237 | The shown list is an order-preserving subsequence of all courses. Every shown course's lower-cased name or code contains the lower-cased term, and with a semester chosen every shown course is in that semester. A course is kept, with its multiplicity, iff it passes both filters. |
| `Enrolment.ApplyFiltersKeeps` | frontend/js/courses.js:224-234 | A course that passes both filters is shown. |
| `Enrolment.ClearFilters` | frontend/js/courses.js:240-249 | Clearing shows what empty controls would show. |
| `Enrolment.EmptyFiltersShowAll` | frontend/js/courses.js:221-234 | With an empty term and no semester, every course is shown in catalog order. |
| `Enrolment.FindCourse` | frontend/js/courses.js:253-254 | `find` returns the first course with the id, or nothing when no course has it. |
| `Enrolment.EnrollModal` | frontend/js/courses.js:252-259 | The dialog opens only for a known id. It shows the current total and the total after enrolling, and the remaining credits are 24 minus the new total. The remainder is non-negative iff enrolling would not exceed the limit. |
| `Session.GetUser` | frontend/js/config.js:12-15 | An absent or empty user record reads as no user. Any other record reads as what it decodes to. |
| `Session.LoggedInIffToken` | frontend/js/config.js:18-20 | Logged in iff a non-empty token is stored. |
| `Session.AdminIffStoredAdmin` | frontend/js/config.js:23-26 | Admin iff a non-empty user record decodes to a user whose role is `admin`. |
| `Session.Logout` | frontend/js/config.js:29-33 | Logging out removes exactly the `token` and `user` keys, keeps every other entry, and goes to `index.html`. |
| `Session.LogoutEndsSession` | frontend/js/config.js:29-31 | After logging out, the store is neither logged in nor admin. |
| `Session.LogoutIdempotent` | frontend/js/config.js:29-31 | Logging out twice leaves the same store as once. |
| `Session.SaveSession` | frontend/js/auth.js:63-64 | Saving sets the `token` and `user` entries and keeps every other entry. |
| `Session.SavedSessionReadsBack` | frontend/js/auth.js:146-147 | After saving, the store is logged in iff the token is non-empty, and it reads back the saved user. |
| `Session.BuildHeaders` | frontend/js/config.js:37-46 | `Content-Type` is the caller's value if given and `application/json` otherwise. `Authorization` is `Bearer <token>` whenever logged in, overriding the caller. Every other caller header passes through, and no other header is added. |
| `Session.HeadersWithoutToken` | frontend/js/config.js:39-46 | Without a token, the caller's headers are sent unchanged, plus a JSON content type when they carry none. |
| `Session.BuildHeadersIdempotent` | frontend/js/config.js:39-46 | Feeding built headers back in changes nothing. |
| `Session.AfterResponse` | frontend/js/config.js:53-56 | A 401 logs out and ends at `index.html`. Any other status leaves the store alone and returns the response. |
| `Session.UnauthorisedSignsOut` | frontend/js/config.js:53-56 | After a 401 the store is neither logged in nor admin. |
| `Auth.ValidateRegistration` | frontend/js/auth.js:91-127 | A password mismatch is reported first. Then a password under six characters is reported, then an empty level. Otherwise the body carries the trimmed name, email, student id and phone, the untrimmed password, and `parseInt` of the level. |
| `Auth.RegistrationAcceptedIffChecksPass` | frontend/js/auth.js:101-117 | A body is built iff the passwords match, the password has at least six characters, and a level is chosen. |
| `Auth.SixCharactersSuffice` | frontend/js/auth.js:108-111 | A matching six-character password passes the length check. |
| `Auth.ChecksIgnoreIdentityFields` | frontend/js/auth.js:101-117 | The verdict depends only on the passwords and the level. |
| `Auth.LandingPage` | frontend/js/auth.js:70-76 | Role `admin` lands on `admin.html` and every other role on `dashboard.html`. |
| `Auth.ExistingSessionRedirect` | frontend/js/auth.js:30-37 | A logged-in visitor on the login or registration page is sent to their role's page. Anyone else stays. A null stored user raises an error. |
| `Auth.AfterLogin` | frontend/js/auth.js:62-76 | Sign-in saves the session and sends admins to `admin.html` and everyone else to `dashboard.html`. |
| `Auth.AfterRegistration` | frontend/js/auth.js:145-153 | Registration saves the session and always goes to `dashboard.html`. |
| `Auth.ReturnVisitAgreesWithLogin` | frontend/js/auth.js:30-37 | After signing in, visiting any path that mentions the login or registration page redirects to the page the sign-in chose. |
| `Auth.AdminPageIffAdminSession` | frontend/js/auth.js:63-75 | After sign-in, the session is admin iff the sign-in went to `admin.html`. |
| `CourseStats.CourseStatistics` | api_demo_portfolio.py:57-79 | An empty list gives the empty result. Otherwise `total` is the number of courses. `by_level` has one key per distinct level key, counts its occurrences, and its counts sum to `total`. `by_semester` has exactly the keys "1" and "2", counting their occurrences. `total_credits` is the credit sum. |
| `CourseStats.Tally` | api_demo_portfolio.py:69-77 | The loop visits each course once, building the level histogram, the semester counts and the credit sum. |
| `CourseStats.HistogramCounts` | api_demo_portfolio.py:74 | The level histogram's keys are the distinct keys, its counts are occurrence counts, and they sum to the number of courses. |
| `CourseStats.SemesterCountsCounts` | api_demo_portfolio.py:75-76 | The semester map keeps exactly the keys "1" and "2" and counts each one's occurrences. |
| `CourseStats.SemesterCountsAtMostTotal` | api_demo_portfolio.py:75-76 | The two semester counts together never exceed the number of courses. |
| `CourseStats.SemesterOneKey` | api_demo_portfolio.py:71 | A semester is counted under "1" iff the record holds the integer 1 or the text "1". |
| `CourseStats.MissingLevelIsUnknown` | api_demo_portfolio.py:70 | A course without a level is counted under `unknown`. |
| `CourseStats.CreditSumAppend` | api_demo_portfolio.py:77 | The credit total of two lists is the sum of their totals. |

## Left out

- Rendering, CSS classes, toasts, dialogs and event listeners are not modelled. They only display what the modelled decisions compute.
- Networking is not modelled: `fetch`, `loadCourses`, `confirmEnrollment`, `reloadCoursesSilently` and the asynchronous flow of the form handlers. `apiRequest` is modelled only in its header construction and its 401 rule.
- Persistence and JSON are not modelled. Storage is a map value, and decoding the stored user is a parameter (`Session.Decoder`). A stored record that fails to parse is not modelled, because `JSON.parse` would throw.
- `getGradeFromScore` and `coursesDatabase` are parameters, because their definitions are not part of this model.
- Cgpa.Contribution: the grade lookup receives `Number` of the stored score, whereas the page passes the raw stored value to `getGradeFromScore`. The two agree whenever the lookup only compares its argument with numbers, since such a comparison applies `Number` to text.
- The DOM lookup `input[oninput*="<key>"]` is a substring match. It is abstracted as the set `rendered` of keys that have an input on the page.
- The display-only parts of `updateGrade` and `loadCoursesForCalculation` are left out (input styling, grade badges and the course table).
- `Number` reads "Infinity" (with or without a sign) as NaN, not as an infinite number. `parseInt` reads such text as NaN, so the first pass rejects it before the second pass sees it (`Cgpa.InfinityTextIsOffending`).
- A persisted score that is a JSON number with a fraction or exponent is not modelled. Stored numbers are integers, as `updateGrade` writes them; text carries the other forms.
- JsText.ToNumberAgreesWithParseInt: stated only for text in integer form, because outside it the two readings differ (`JsText.NumberReadsBeyondParseInt`).
- Cgpa.CountedScoreInRange: requires stored text to be in integer form. The page grades persisted text like "1e3" with a value outside [0, 100] (`Cgpa.ExponentTextGradedAsThousand`).
- Cgpa.GradePointOutsideRangeIrrelevant: requires every stored text to be in integer form. With text like "1e3" the page applies the grade lookup to 1000.
- Cgpa.ContributionBound: requires every stored text to be in integer form, for the same reason.
- Cgpa.AverageWithinScale: requires every stored text to be in integer form, for the same reason. Maps written by `updateGrade` hold no text and always qualify.
- Integers are unbounded. JavaScript numbers beyond 2^53 and their exponent rendering are not modelled.
- White space and case are ASCII only, plus NBSP, BOM, VT and FF. Full Unicode `trim` and `toLowerCase` are not modelled.
- Text length counts Unicode scalar values, not UTF-16 code units. The six-character password check differs only for characters outside the Basic Multilingual Plane.
- `toFixed(2)`, the progress-bar percentage and its `Math.min(…, 100)` cap are presentation only.
- A colour lookup with a key such as `toString` would hit `Object.prototype`. Grades only ever come from the grade lookup, so this is not modelled.
- Credits are modelled as integers or absent, in both the course browser and the statistics script. A credits value that is text or a fraction is not modelled: in `sum + (e.credits || 0)` (frontend/js/courses.js:67) text would concatenate and a fraction would add as a float, and in the statistics script it makes Python raise `TypeError` or change type. Floats and other values as level or semester keys are left out.
- The other demo scripts, `portfolio_demo.py`, `api_demo.py` and `api_discovery.py`, are print and HTTP plumbing and are left out.
- `setTimeout` delays before redirects are left out. The redirect target is modelled, not its timing.
