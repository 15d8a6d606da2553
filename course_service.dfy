/**
 * The pure part of server/src/services/courseService.ts: the entity-to-DTO
 * converters, the task-check statistics of `getMentorsDetails`, the ranking
 * of `getScoreStudents` after its query, and `isPowerUser`.
 */
module CourseService {
  import opened Wrappers
  import Text
  import Sorting

  /** The loaded user columns; `locationName` is nullable. */
  datatype User = User(id: int, firstName: string, lastName: string, githubId: string, locationName: Option<string>)

  /** A student as joined under a mentor: only what the converters read. */
  datatype MentorStudent = MentorStudent(id: int, isExpelled: bool, isFailed: bool, taskResultCount: Option<nat>)

  /** A mentor with its optional relations (`students`, `stageInterviews`). */
  datatype Mentor = Mentor(
    id: int,
    user: User,
    isExpelled: bool,
    students: Option<seq<MentorStudent>>,
    stageInterviewCount: Option<nat>,
    maxStudentsLimit: int,
    studentsPreference: Option<string>)

  datatype StudentRef = StudentRef(id: int)

  datatype MentorBasic = MentorBasic(isActive: bool, name: string, id: int, githubId: string, students: seq<StudentRef>)

  /** The basic fields spread in, with `students` replaced by the full student list. */
  datatype MentorDetails = MentorDetails(
    isActive: bool,
    name: string,
    id: int,
    githubId: string,
    students: seq<MentorStudent>,
    locationName: Option<string>,
    countryName: string,
    maxStudentsLimit: int,
    studentsPreference: Option<string>,
    studentsCount: nat,
    interviewsCount: nat)

  /** The reference data: city name to country id, country id to country name. */
  datatype Places = Places(cities: map<string, int>, countries: map<int, string>)

  // ---------------------------------------------------------------------------
  // Converters

  /**
   * `` `${firstName} ${lastName}`.trim() ``: no longer than the joined text,
   * and neither starting nor ending with white space.
   */
  function FullName(u: User): (r: string)
    ensures |r| <= |u.firstName| + 1 + |u.lastName|
    ensures r == [] || (!Text.IsSpace(r[0]) && !Text.IsSpace(r[|r| - 1]))
  {
    Text.Trim(u.firstName + " " + u.lastName)
  }

  /** Names without surrounding white space are joined by one space and kept whole. */
  lemma FullNameOfTrimmed(u: User)
    requires u.firstName != "" && !Text.IsSpace(u.firstName[0])
    requires u.lastName != "" && !Text.IsSpace(u.lastName[|u.lastName| - 1])
    ensures FullName(u) == u.firstName + " " + u.lastName
  {
    var t := u.firstName + " " + u.lastName;
    assert t[0] == u.firstName[0] && t[|t| - 1] == u.lastName[|u.lastName| - 1];
    assert Text.TrimStart(t) == t;
    assert Text.TrimEnd(t) == t;
  }

  /** `locationName || null`: the empty name counts as none. */
  function LocationName(u: User): (r: Option<string>)
    ensures r.Some? <==> u.locationName.Some? && u.locationName.value != ""
    ensures r.Some? ==> r == u.locationName
  {
    if u.locationName.Some? && u.locationName.value != "" then u.locationName else None
  }

  /**
   * `countriesMap[citiesMap[locationName]] || 'Other'`; a null location is
   * looked up under the property key "null".
   */
  function CountryName(places: Places, u: User): (r: string)
    ensures r != ""
    ensures r == "Other" || r in places.countries.Values
  {
    var city := u.locationName.GetOr("null");
    if city in places.cities && places.cities[city] in places.countries && places.countries[places.cities[city]] != ""
    then places.countries[places.cities[city]]
    else "Other"
  }

  predicate StudentActive(s: MentorStudent) {
    !s.isExpelled && !s.isFailed
  }

  /** The ids of the students neither expelled nor failed, in order. */
  function ActiveStudentIds(students: seq<MentorStudent>): (r: seq<StudentRef>)
    ensures |r| <= |students|
  {
    if students == [] then []
    else (if StudentActive(students[0]) then [StudentRef(students[0].id)] else []) + ActiveStudentIds(students[1..])
  }

  /** `convertToMentorBasic` */
  function ToMentorBasic(m: Mentor): (r: MentorBasic)
    ensures r.isActive <==> !m.isExpelled
    ensures r.name == FullName(m.user) && r.id == m.id && r.githubId == m.user.githubId
    ensures m.students.None? ==> r.students == []
    ensures m.students.Some? ==> r.students == ActiveStudentIds(m.students.value)
  {
    MentorBasic(!m.isExpelled, FullName(m.user), m.id, m.user.githubId,
                if m.students.Some? then ActiveStudentIds(m.students.value) else [])
  }

  /**
   * `convertToMentorDetails`: the basic record spread in, its filtered
   * `students` overridden by the mentor's whole (unfiltered) student list.
   */
  function ToMentorDetails(places: Places, m: Mentor): (r: MentorDetails)
    ensures var b := ToMentorBasic(m);
            r.isActive == b.isActive && r.name == b.name && r.id == b.id && r.githubId == b.githubId
    ensures r.students == m.students.GetOr([])
    ensures r.studentsCount == |r.students|
    ensures |ToMentorBasic(m).students| <= r.studentsCount
    ensures r.locationName == LocationName(m.user) && r.countryName == CountryName(places, m.user)
    ensures r.maxStudentsLimit == m.maxStudentsLimit && r.studentsPreference == m.studentsPreference
    ensures r.interviewsCount == m.stageInterviewCount.GetOr(0)
  {
    var b := ToMentorBasic(m);
    var all := m.students.GetOr([]);
    MentorDetails(b.isActive, b.name, b.id, b.githubId, all, LocationName(m.user), CountryName(places, m.user),
                  m.maxStudentsLimit, m.studentsPreference, |all|, m.stageInterviewCount.GetOr(0))
  }

  datatype ResultRef = ResultRef(courseTaskId: int, score: real)

  /** An interview result; its `score` may be missing. */
  datatype InterviewResult = InterviewResult(courseTaskId: int, score: Option<real>)

  datatype StageInterview = StageInterview(id: int, isCompleted: bool)

  /** A student with the optional relations the queries join. */
  datatype Student = Student(
    id: int,
    user: User,
    isExpelled: bool,
    isFailed: bool,
    totalScore: real,
    repository: string,
    mentor: Option<Mentor>,
    stageInterviews: Option<seq<StageInterview>>,
    taskResults: Option<seq<ResultRef>>,
    interviewResults: Option<seq<InterviewResult>>)

  datatype StudentBasic = StudentBasic(
    name: string, isActive: bool, id: int, githubId: string, mentor: Option<MentorBasic>, totalScore: real)

  datatype StudentDetails = StudentDetails(
    basic: StudentBasic, locationName: Option<string>, countryName: string,
    interviews: seq<StageInterview>, repository: string)

  /** `convertToStudentBasic` */
  function ToStudentBasic(s: Student): (r: StudentBasic)
    ensures r.isActive <==> !s.isExpelled && !s.isFailed
    ensures r.name == FullName(s.user) && r.id == s.id && r.githubId == s.user.githubId
    ensures r.totalScore == s.totalScore
    ensures r.mentor.Some? <==> s.mentor.Some?
    ensures s.mentor.Some? ==> r.mentor == Some(ToMentorBasic(s.mentor.value)) && r.mentor.value.id == s.mentor.value.id
  {
    StudentBasic(FullName(s.user), !s.isExpelled && !s.isFailed, s.id, s.user.githubId,
                 if s.mentor.Some? then Some(ToMentorBasic(s.mentor.value)) else None, s.totalScore)
  }

  /** `convertToStudentDetails`: a missing or empty interview list becomes `[]`. */
  function ToStudentDetails(places: Places, s: Student): (r: StudentDetails)
    ensures r.basic == ToStudentBasic(s)
    ensures r.locationName == LocationName(s.user) && r.countryName == CountryName(places, s.user)
    ensures r.repository == s.repository
    ensures s.stageInterviews.None? ==> r.interviews == []
    ensures s.stageInterviews.Some? ==> r.interviews == s.stageInterviews.value
  {
    StudentDetails(ToStudentBasic(s), LocationName(s.user), CountryName(places, s.user),
                   if s.stageInterviews.None? || s.stageInterviews.value == [] then [] else s.stageInterviews.value,
                   s.repository)
  }

  // ---------------------------------------------------------------------------
  // Converter properties

  /** An id is listed exactly when some active student has it. */
  lemma {:induction false} ActiveStudentIdsExact(students: seq<MentorStudent>, id: int)
    ensures StudentRef(id) in ActiveStudentIds(students) <==>
              exists i :: 0 <= i < |students| && StudentActive(students[i]) && students[i].id == id
  {
    if students != [] {
      ActiveStudentIdsExact(students[1..], id);
      if StudentRef(id) in ActiveStudentIds(students[1..]) {
        var i :| 0 <= i < |students[1..]| && StudentActive(students[1..][i]) && students[1..][i].id == id;
        assert students[i + 1] == students[1..][i];
      }
      forall i | 0 < i < |students| && StudentActive(students[i]) && students[i].id == id
        ensures StudentRef(id) in ActiveStudentIds(students[1..])
      {
        assert students[1..][i - 1] == students[i];
      }
    }
  }

  /** Filtering respects concatenation, so input order is kept. */
  lemma {:induction false} ActiveStudentIdsAppend(a: seq<MentorStudent>, b: seq<MentorStudent>)
    ensures ActiveStudentIds(a + b) == ActiveStudentIds(a) + ActiveStudentIds(b)
  {
    if a != [] {
      assert (a + b)[1..] == a[1..] + b;
      ActiveStudentIdsAppend(a[1..], b);
    } else {
      assert a + b == b;
    }
  }

  /** A known city of a country with a non-empty name gives that country's name. */
  lemma CountryOfKnownCity(places: Places, u: User, city: string)
    requires u.locationName == Some(city) && city in places.cities
    requires places.cities[city] in places.countries && places.countries[places.cities[city]] != ""
    ensures CountryName(places, u) == places.countries[places.cities[city]]
  {
  }

  /** A city the reference data does not list gives `Other`. */
  lemma CountryFallback(places: Places, u: User)
    requires u.locationName.Some? && u.locationName.value !in places.cities
    ensures CountryName(places, u) == "Other"
  {
  }

  /** A null location is looked up as the property key "null", like a city of that name. */
  lemma NullLocationKey(places: Places, u: User)
    requires u.locationName.None?
    ensures CountryName(places, u) == CountryName(places, u.(locationName := Some("null")))
    ensures LocationName(u) == None
  {
  }

  /**
   * A student and a mentor who are the same user get the same name, GitHub id,
   * location and country from the two detail converters.
   */
  lemma SameUserSameDetails(places: Places, s: Student, m: Mentor)
    requires s.user == m.user
    ensures var sd, md := ToStudentDetails(places, s), ToMentorDetails(places, m);
            && sd.basic.name == md.name && sd.basic.githubId == md.githubId
            && sd.locationName == md.locationName && sd.countryName == md.countryName
  {
  }

  // ---------------------------------------------------------------------------
  // getMentorsDetails statistics

  datatype TaskResultsStats = TaskResultsStats(total: nat, checked: nat)

  /** `students.reduce((acc, s) => acc + (s.taskResults?.length ?? 0), 0)` */
  function CheckedCount(students: seq<MentorStudent>): nat {
    if students == [] then 0 else students[0].taskResultCount.GetOr(0) + CheckedCount(students[1..])
  }

  /** `total` is students times eligible tasks; `checked` counts the loaded results. */
  function MentorStats(m: Mentor, eligibleTaskCount: nat): (r: TaskResultsStats)
    ensures m.students.None? ==> r == TaskResultsStats(0, 0)
    ensures m.students.Some? ==> r.total == |m.students.value| * eligibleTaskCount
    ensures r.checked == CheckedCount(m.students.GetOr([]))
  {
    var students := m.students.GetOr([]);
    TaskResultsStats(|students| * eligibleTaskCount, CheckedCount(students))
  }

  /** When no student has more results than there are eligible tasks, `checked` never exceeds `total`. */
  lemma {:induction false} CheckedWithinTotal(students: seq<MentorStudent>, eligibleTaskCount: nat)
    requires forall i :: 0 <= i < |students| ==> students[i].taskResultCount.GetOr(0) <= eligibleTaskCount
    ensures CheckedCount(students) <= |students| * eligibleTaskCount
  {
    if students != [] {
      CheckedWithinTotal(students[1..], eligibleTaskCount);
    }
  }

  lemma {:induction false} CheckedCountAppend(a: seq<MentorStudent>, b: seq<MentorStudent>)
    ensures CheckedCount(a + b) == CheckedCount(a) + CheckedCount(b)
  {
    if a != [] {
      assert (a + b)[1..] == a[1..] + b;
      CheckedCountAppend(a[1..], b);
    } else {
      assert a + b == b;
    }
  }

  // ---------------------------------------------------------------------------
  // getScoreStudents

  datatype StudentWithResults = StudentWithResults(
    rank: nat,
    courseId: int,
    id: int,
    mentor: Option<MentorBasic>,
    userId: int,
    name: string,
    githubId: string,
    totalScore: real,
    locationName: string,
    taskResults: seq<ResultRef>,
    isActive: bool)

  function InterviewAsResult(r: InterviewResult): ResultRef {
    ResultRef(r.courseTaskId, r.score.GetOr(0.0))
  }

  /**
   * The regular results followed by the interview results (score 0 when
   * missing); when the regular results are missing the whole list is empty.
   */
  function MergedResults(s: Student): (r: seq<ResultRef>)
    ensures s.taskResults.None? ==> r == []
    ensures s.taskResults.Some? ==> |s.taskResults.value| <= |r| && r[..|s.taskResults.value|] == s.taskResults.value
    ensures s.taskResults.Some? && s.interviewResults.Some? ==>
              |r| == |s.taskResults.value| + |s.interviewResults.value|
              && forall k :: 0 <= k < |s.interviewResults.value| ==>
                   r[|s.taskResults.value| + k] == InterviewAsResult(s.interviewResults.value[k])
    ensures s.taskResults.Some? && s.interviewResults.None? ==> r == s.taskResults.value
  {
    match s.taskResults
    case None => []
    case Some(regular) =>
      regular + (match s.interviewResults
                 case None => []
                 case Some(iv) => Sorting.Map(iv, InterviewAsResult))
  }

  /** One row of the score table: the student at `position`, ranked `position + 1`. */
  function ToScoreRow(courseId: int, s: Student, position: nat): (r: StudentWithResults)
    ensures r.rank == position + 1 && r.courseId == courseId && r.id == s.id && r.userId == s.user.id
    ensures r.name == FullName(s.user) && r.githubId == s.user.githubId && r.totalScore == s.totalScore
    ensures r.mentor.Some? <==> s.mentor.Some?
    ensures s.mentor.Some? ==> r.mentor == Some(ToMentorBasic(s.mentor.value))
    ensures r.locationName == (if s.user.locationName.Some? then s.user.locationName.value else "")
    ensures r.taskResults == MergedResults(s) && (r.isActive <==> !s.isExpelled && !s.isFailed)
  {
    StudentWithResults(
      position + 1, courseId, s.id,
      if s.mentor.Some? then Some(ToMentorBasic(s.mentor.value)) else None,
      s.user.id, FullName(s.user), s.user.githubId, s.totalScore,
      s.user.locationName.GetOr(""), MergedResults(s), !s.isExpelled && !s.isFailed)
  }

  /** The comparator `(a, b) => b.totalScore - a.totalScore` on the stored totals. */
  function HigherStored(a: Student, b: Student): bool {
    a.totalScore >= b.totalScore
  }

  /** `getScoreStudents` after its query: sorted by stored total, each student converted with its rank. */
  function ScoreStudents(courseId: int, students: seq<Student>): (r: seq<StudentWithResults>)
    ensures |r| == |students|
  {
    var sorted := Sorting.SortBy(students, HigherStored);
    seq(|sorted|, i requires 0 <= i < |sorted| => ToScoreRow(courseId, sorted[i], i))
  }

  /**
   * The score table: one row per loaded student, rank = position + 1, in
   * non-increasing order of the stored total.
   */
  lemma ScoreStudentsRanked(courseId: int, students: seq<Student>)
    ensures |ScoreStudents(courseId, students)| == |students|
    ensures forall i :: 0 <= i < |students| ==> ScoreStudents(courseId, students)[i].rank == i + 1
    ensures forall i, j :: 0 <= i < j < |students| ==>
              ScoreStudents(courseId, students)[i].totalScore >= ScoreStudents(courseId, students)[j].totalScore
  {
    var sorted := Sorting.SortBy(students, HigherStored);
    Sorting.SortedLength(students, HigherStored);
    assert Sorting.SortedBy(sorted, HigherStored) by {
      Sorting.SortedBySort(students, HigherStored);
    }
  }

  /** Every loaded student gets exactly its own row, built from its own record. */
  lemma ScoreStudentsRows(courseId: int, students: seq<Student>, p: nat)
    requires p < |students|
    ensures exists i :: 0 <= i < |ScoreStudents(courseId, students)|
                        && ScoreStudents(courseId, students)[i] == ToScoreRow(courseId, students[p], i)
  {
    var sorted := Sorting.SortBy(students, HigherStored);
    var i := Sorting.PermutationIndex(students, sorted, p);
    assert ScoreStudents(courseId, students)[i] == ToScoreRow(courseId, students[p], i);
  }

  // ---------------------------------------------------------------------------
  // isPowerUser

  /** `session.isAdmin || session.roles[courseId] === 'coursemanager'` */
  predicate IsPowerUser(isAdmin: bool, roles: map<int, string>, courseId: int)
    ensures isAdmin ==> IsPowerUser(isAdmin, roles, courseId)
    ensures !isAdmin && courseId !in roles ==> !IsPowerUser(isAdmin, roles, courseId)
  {
    isAdmin || (courseId in roles && roles[courseId] == "coursemanager")
  }

  /** A course manager of one course has no power over another course unless admin. */
  lemma PowerIsPerCourse(roles: map<int, string>, c: int, d: int)
    requires c != d && roles == map[c := "coursemanager"]
    ensures IsPowerUser(false, roles, c) && !IsPowerUser(false, roles, d)
  {
  }
}
