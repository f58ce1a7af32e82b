/** The course statistics of the portfolio demo script: the number of
    courses, how many there are per level and per semester, and their
    credit total. */
module CourseStats {
  import opened Wrappers
  import opened JsText

  /** The field values a course record can carry. */
  datatype PyValue = PyInt(i: int) | PyStr(s: string) | PyBool(b: bool) | PyNone

  /** One course record; `None` means the key is absent from the record. */
  datatype PyCourse = PyCourse(level: Option<PyValue>, semester: Option<PyValue>, credits: Option<int>)

  /** The statistics record. */
  datatype Stats = Stats(total: nat, byLevel: map<string, nat>, bySemester: map<string, nat>,
                         totalCredits: int)

  /** `str(v)` for the values a record holds. */
  function Str(v: PyValue): string {
    match v
    case PyInt(i) => IntToString(i)
    case PyStr(s) => s
    case PyBool(b) => if b then "True" else "False"
    case PyNone => "None"
  }

  /** `str(course.get(field, 'unknown'))`. */
  function KeyOf(field: Option<PyValue>): string {
    match field
    case None => "unknown"
    case Some(v) => Str(v)
  }

  /** The level key of every course, in order. */
  function LevelKeys(courses: seq<PyCourse>): (r: seq<string>)
    ensures |r| == |courses| && forall i :: 0 <= i < |r| ==> r[i] == KeyOf(courses[i].level)
  {
    seq(|courses|, i requires 0 <= i < |courses| => KeyOf(courses[i].level))
  }

  /** The semester key of every course, in order. */
  function SemesterKeys(courses: seq<PyCourse>): (r: seq<string>)
    ensures |r| == |courses| && forall i :: 0 <= i < |r| ==> r[i] == KeyOf(courses[i].semester)
  {
    seq(|courses|, i requires 0 <= i < |courses| => KeyOf(courses[i].semester))
  }

  /** `course.get('credits', 0)`. */
  function CreditsOf(course: PyCourse): int {
    course.credits.GetOr(0)
  }

  /** The credits of all courses, an absent value counted as 0. */
  function CreditSum(courses: seq<PyCourse>): int {
    if courses == [] then 0 else CreditSum(courses[..|courses| - 1]) + CreditsOf(courses[|courses| - 1])
  }

  // ---------------------------------------------------------------------------
  // Counting into maps
  // ---------------------------------------------------------------------------

  /** The sum of all counts in a map. */
  ghost function SumValues(m: map<string, nat>): nat
    decreases |m.Keys|
  {
    if m == map[] then 0
    else
      var k :| k in m;
      m[k] + SumValues(m - {k})
  }

  /** Any key can be taken out first when summing the counts. */
  lemma {:induction false} SumValuesRemove(m: map<string, nat>, k: string)
    requires k in m
    ensures SumValues(m) == m[k] + SumValues(m - {k})
    decreases |m.Keys|
  {
    var j :| j in m && SumValues(m) == m[j] + SumValues(m - {j});
    if j != k {
      var mj := m - {j};
      var mk := m - {k};
      assert |mj.Keys| < |m.Keys| by { assert mj.Keys < m.Keys; }
      assert |mk.Keys| < |m.Keys| by { assert mk.Keys < m.Keys; }
      SumValuesRemove(mj, k);
      SumValuesRemove(mk, j);
      assert mj - {k} == mk - {j};
    }
  }

  /** `counts[k] = counts.get(k, 0) + 1`. */
  function CountKey(counts: map<string, nat>, k: string): map<string, nat> {
    counts[k := (if k in counts then counts[k] else 0) + 1]
  }

  /** `if k in counts: counts[k] += 1`. */
  function CountTrackedKey(counts: map<string, nat>, k: string): map<string, nat> {
    if k in counts then counts[k := counts[k] + 1] else counts
  }

  /** `by_level[key] = by_level.get(key, 0) + 1` applied to every key in turn. */
  function Histogram(keys: seq<string>): map<string, nat> {
    if keys == [] then map[]
    else CountKey(Histogram(keys[..|keys| - 1]), keys[|keys| - 1])
  }

  /** The histogram has a key for each distinct key of the list, counts every
      occurrence, and its counts add up to the length of the list. */
  lemma {:induction false} HistogramCounts(keys: seq<string>)
    ensures forall k :: k in Histogram(keys) <==> k in keys
    ensures forall k | k in Histogram(keys) :: Histogram(keys)[k] == multiset(keys)[k]
    ensures SumValues(Histogram(keys)) == |keys|
  {
    if keys != [] {
      var front := keys[..|keys| - 1];
      var k := keys[|keys| - 1];
      HistogramCounts(front);
      assert keys == front + [k];
      HistogramStep(Histogram(front), k, |front|);
    }
  }

  /** Counting one more key adds one to the sum of the counts. */
  lemma HistogramStep(before: map<string, nat>, k: string, n: nat)
    requires SumValues(before) == n
    ensures SumValues(CountKey(before, k)) == n + 1
  {
    var after := CountKey(before, k);
    SumValuesRemove(after, k);
    if k in before {
      SumValuesRemove(before, k);
      assert after - {k} == before - {k};
    } else {
      assert after - {k} == before;
    }
  }

  /** `by_semester`: starts at `{"1": 0, "2": 0}` and only ever counts those two keys. */
  function SemesterCounts(keys: seq<string>): map<string, nat> {
    if keys == [] then map["1" := 0, "2" := 0]
    else CountTrackedKey(SemesterCounts(keys[..|keys| - 1]), keys[|keys| - 1])
  }

  /** The semester map keeps exactly the keys "1" and "2" and counts every occurrence of each. */
  lemma {:induction false} SemesterCountsCounts(keys: seq<string>)
    ensures SemesterCounts(keys).Keys == {"1", "2"}
    ensures SemesterCounts(keys)["1"] == multiset(keys)["1"] && SemesterCounts(keys)["2"] == multiset(keys)["2"]
  {
    if keys != [] {
      var front := keys[..|keys| - 1];
      SemesterCountsCounts(front);
      assert keys == front + [keys[|keys| - 1]];
    }
  }

  /** The two semester counts together never exceed the number of keys. */
  lemma {:induction false} SemesterCountsAtMostTotal(keys: seq<string>)
    ensures SemesterCounts(keys).Keys == {"1", "2"}
    ensures SemesterCounts(keys)["1"] + SemesterCounts(keys)["2"] <= |keys|
  {
    SemesterCountsCounts(keys);
    if keys != [] {
      var front := keys[..|keys| - 1];
      SemesterCountsAtMostTotal(front);
      SemesterCountsCounts(front);
      assert keys == front + [keys[|keys| - 1]];
    }
  }

  /** A semester key is `"1"` exactly when the record holds the integer 1 or the text "1". */
  lemma SemesterOneKey(field: Option<PyValue>)
    ensures KeyOf(field) == "1" <==> field == Some(PyInt(1)) || field == Some(PyStr("1"))
  {
    if field.Some? && field.value.PyInt? && KeyOf(field) == "1" {
      var i := field.value.i;
      ParseIntOfIntToString(i);
      ParseIntOfIntToString(1);
      assert IntToString(1) == "1";
    }
  }

  // ---------------------------------------------------------------------------
  // get_course_statistics
  // ---------------------------------------------------------------------------

  /** `get_course_statistics`: `None` stands for the empty record returned for
      an empty course list. */
  method CourseStatistics(courses: seq<PyCourse>) returns (r: Option<Stats>)
    ensures r.None? <==> courses == []
    ensures r.Some? ==> r.value.total == |courses|
    ensures r.Some? ==> (forall k :: k in r.value.byLevel <==> k in LevelKeys(courses))
    ensures r.Some? ==> forall k | k in r.value.byLevel :: r.value.byLevel[k] == multiset(LevelKeys(courses))[k]
    ensures r.Some? ==> SumValues(r.value.byLevel) == r.value.total
    ensures r.Some? ==> (r.value.bySemester.Keys == {"1", "2"}
                         && r.value.bySemester["1"] == multiset(SemesterKeys(courses))["1"]
                         && r.value.bySemester["2"] == multiset(SemesterKeys(courses))["2"])
    ensures r.Some? ==> r.value.totalCredits == CreditSum(courses)
  {
    if |courses| == 0 {
      return None;
    }
    var byLevel, bySemester, totalCredits := Tally(courses);
    HistogramCounts(LevelKeys(courses));
    SemesterCountsCounts(SemesterKeys(courses));
    r := Some(Stats(|courses|, byLevel, bySemester, totalCredits));
  }

  /** The loop of `get_course_statistics`: every course adds one to its level's
      count, one to its semester's count when that is 1 or 2, and its credits
      to the total. */
  method Tally(courses: seq<PyCourse>) returns (byLevel: map<string, nat>, bySemester: map<string, nat>,
                                                totalCredits: int)
    ensures byLevel == Histogram(LevelKeys(courses))
    ensures bySemester == SemesterCounts(SemesterKeys(courses))
    ensures totalCredits == CreditSum(courses)
  {
    byLevel := map[];
    bySemester := map["1" := 0, "2" := 0];
    totalCredits := 0;
    var i := 0;
    while i < |courses|
      invariant 0 <= i <= |courses|
      invariant byLevel == Histogram(LevelKeys(courses[..i]))
      invariant bySemester == SemesterCounts(SemesterKeys(courses[..i]))
      invariant totalCredits == CreditSum(courses[..i])
    {
      var course := courses[i];
      var level := KeyOf(course.level);
      var semester := KeyOf(course.semester);
      var credits := CreditsOf(course);
      byLevel := CountKey(byLevel, level);
      bySemester := CountTrackedKey(bySemester, semester);
      totalCredits := totalCredits + credits;
      TallyStep(courses, i);
      i := i + 1;
    }
    assert courses[..i] == courses;
  }

  /** One turn of the loop: the tallies of the first `i + 1` courses are
      those of the first `i` with course `i` added. */
  lemma TallyStep(courses: seq<PyCourse>, i: nat)
    requires i < |courses|
    ensures Histogram(LevelKeys(courses[..i + 1])) == CountKey(Histogram(LevelKeys(courses[..i])), KeyOf(courses[i].level))
    ensures SemesterCounts(SemesterKeys(courses[..i + 1]))
            == CountTrackedKey(SemesterCounts(SemesterKeys(courses[..i])), KeyOf(courses[i].semester))
    ensures CreditSum(courses[..i + 1]) == CreditSum(courses[..i]) + CreditsOf(courses[i])
  {
    KeysStep(courses, i);
    HistogramSnoc(LevelKeys(courses[..i]), KeyOf(courses[i].level));
    SemesterCountsSnoc(SemesterKeys(courses[..i]), KeyOf(courses[i].semester));
    assert courses[..i + 1][..i] == courses[..i];
  }

  /** The keys of one more course are the keys so far plus that course's keys. */
  lemma KeysStep(courses: seq<PyCourse>, i: nat)
    requires i < |courses|
    ensures LevelKeys(courses[..i + 1]) == LevelKeys(courses[..i]) + [KeyOf(courses[i].level)]
    ensures SemesterKeys(courses[..i + 1]) == SemesterKeys(courses[..i]) + [KeyOf(courses[i].semester)]
  {
  }

  /** Counting one more key into the histogram. */
  lemma HistogramSnoc(keys: seq<string>, k: string)
    ensures Histogram(keys + [k]) == CountKey(Histogram(keys), k)
  {
    assert (keys + [k])[..|keys|] == keys;
  }

  /** Counting one more key into the semester map. */
  lemma SemesterCountsSnoc(keys: seq<string>, k: string)
    ensures SemesterCounts(keys + [k]) == CountTrackedKey(SemesterCounts(keys), k)
  {
    assert (keys + [k])[..|keys|] == keys;
  }

  /** A course without a level is counted under `unknown`. */
  lemma MissingLevelIsUnknown(courses: seq<PyCourse>, i: nat)
    requires i < |courses| && courses[i].level == None
    ensures "unknown" in LevelKeys(courses)
    ensures multiset(LevelKeys(courses))["unknown"] > 0
  {
    assert LevelKeys(courses)[i] == "unknown";
  }

  /** The credit total of a list is the credit total of its parts. */
  lemma {:induction false} CreditSumAppend(a: seq<PyCourse>, b: seq<PyCourse>)
    ensures CreditSum(a + b) == CreditSum(a) + CreditSum(b)
    decreases |b|
  {
    if b == [] {
      assert a + b == a;
    } else {
      assert (a + b)[..|a + b| - 1] == a + b[..|b| - 1];
      assert (a + b)[|a + b| - 1] == b[|b| - 1];
      CreditSumAppend(a, b[..|b| - 1]);
    }
  }
}
