/**
 * The route guards of server/src/routes/guards.ts: role predicates derived
 * from the session (`userGuards`) and, per exported guard, the choice between
 * handing the request on (`next`) and falling back to the admin's HTTP basic
 * authentication.
 */
module Guards {
  import opened Wrappers
  import Text

  /** `CourseRole` as stored in `coursesRoles`. */
  datatype CourseRole = Manager | Supervisor | TaskOwner | OtherCourseRole(name: string)

  /** `IUserSession`: `roles` maps a course to its role string, `coursesRoles` (optional) to a role list. */
  datatype Session = Session(
    isAdmin: bool,
    isHirer: bool,
    roles: map<int, string>,
    coursesRoles: Option<map<int, seq<CourseRole>>>)

  /**
   * What a guard sees of a request: the session user (`ctx.state.user`, absent
   * when nobody signed in), whether the request is authenticated, whether the
   * server runs in dev mode, and the `courseId` route parameter as its text.
   */
  datatype Request = Request(user: Option<Session>, authenticated: bool, devMode: bool, courseParam: string)

  /** `next()` runs, basic admin authentication decides, or the guard throws. */
  datatype Decision = Next | BasicAuth | Throws

  datatype Guard =
    | PlainGuard | CourseGuard | CourseMentorGuard | AnyCourseMentorGuard | AdminGuard
    | TaskOwnerGuard | CourseManagerGuard | AnyCourseManagerGuard | AnyCoursePowerUserGuard
    | CourseSupervisorGuard

  // ---------------------------------------------------------------------------
  // Course keys
  //
  // The session objects are indexed with a property key: the course whose
  // key text the key is, or none (written None below) when the key is not
  // the printed form of any integer, such as `NaN`, `01` or ` 1`.

  /** The property key of course n: its decimal text, with a minus sign when negative. */
  function KeyText(n: int): (r: string)
    ensures n >= 0 ==> r == Text.NatToString(n)
    ensures n < 0 ==> r == "-" + Text.NatToString(-n)
  {
    if n < 0 then "-" + Text.NatToString(-n) else Text.NatToString(n)
  }

  /** The course a raw parameter names when used as a property key unconverted. */
  function RawCourse(p: string): (r: Option<int>)
    ensures r.Some? ==> p == KeyText(r.value)
  {
    if Text.Canonical(p) then
      PositiveKey(p);
      Some(Text.ParseDigits(p))
    else if |p| >= 2 && p[0] == '-' && Text.Canonical(p[1..]) && p[1] != '0' then
      NegativeKey(p);
      var v: int := Text.ParseDigits(p[1..]);
      Some(-v)
    else None
  }

  lemma PositiveKey(d: string)
    requires Text.Canonical(d)
    ensures KeyText(Text.ParseDigits(d)) == d
  {
    Text.CanonicalRoundTrip(d);
  }

  lemma NegativeKey(p: string)
    requires |p| >= 2 && p[0] == '-' && Text.Canonical(p[1..]) && p[1] != '0'
    ensures var v: int := Text.ParseDigits(p[1..]); KeyText(-v) == p
  {
    var d := p[1..];
    Text.CanonicalRoundTrip(d);
    Text.LeadingDigitPositive(d);
    assert p == "-" + d;
  }

  /** Every course's key text names that course. */
  lemma RawCourseOfKey(n: int)
    ensures RawCourse(KeyText(n)) == Some(n)
  {
    KeyTextShape(n);
    RawCourseOfShape(KeyText(n), n);
  }

  /**
   * What a course's key text is made of: the canonical digits of n, or a
   * minus sign followed by the canonical digits of -n, which do not start with 0.
   */
  predicate KeyShaped(k: string, n: int) {
    if n >= 0 then Text.Canonical(k) && Text.ParseDigits(k) == n
    else |k| >= 2 && k[0] == '-' && Text.Canonical(k[1..]) && k[1] != '0' && Text.ParseDigits(k[1..]) == -n
  }

  lemma KeyTextShape(n: int)
    ensures KeyShaped(KeyText(n), n)
  {
    var m := if n < 0 then -n else n;
    var d := Text.NatToString(m);
    Text.NatToStringCanonical(m);
    Text.NatToStringRoundTrip(m);
    if n < 0 {
      var k := KeyText(n);
      assert k == "-" + d;
      assert k[1..] == d;
      Text.LeadingZero(d);
    }
  }

  lemma RawCourseOfShape(k: string, n: int)
    requires KeyShaped(k, n)
    ensures RawCourse(k) == Some(n)
  {
    if n < 0 {
      assert !Text.Canonical(k) by { assert k[0] == '-'; }
    }
  }

  /** A raw parameter names course n exactly when it is n's key text. */
  lemma RawCourseExact(p: string, n: int)
    ensures RawCourse(p) == Some(n) <==> p == KeyText(n)
  {
    if p == KeyText(n) {
      RawCourseOfKey(n);
    }
  }

  /** Decimal digits with an optional sign, read as `Number` reads them. */
  function SignedDigits(t: string): Option<int> {
    if |t| >= 2 && (t[0] == '-' || t[0] == '+') && Text.AllDigits(t[1..]) then
      var v: int := Text.ParseDigits(t[1..]);
      Some(if t[0] == '-' then -v else v)
    else if t != "" && Text.AllDigits(t) then Some(Text.ParseDigits(t))
    else None
  }

  /**
   * The course `Number(p)` names once used as a key: surrounding white space
   * is ignored, blank text is 0, and signed decimal digits give their value
   * (leading zeros allowed); anything else is read as matching no course.
   */
  function NumberCourse(p: string): (r: Option<int>)
    ensures Text.Trim(p) == "" ==> r == Some(0)
  {
    var t := Text.Trim(p);
    if t == "" then Some(0) else SignedDigits(t)
  }

  /** A course's key text converts to that course. */
  lemma NumberCourseOfKey(n: int)
    ensures NumberCourse(KeyText(n)) == Some(n)
  {
    KeyTextShape(n);
    NumberCourseOfShape(KeyText(n), n);
  }

  lemma NumberCourseOfShape(k: string, n: int)
    requires KeyShaped(k, n)
    ensures NumberCourse(k) == Some(n)
  {
    if n >= 0 {
      DigitsNumber(k, n);
    } else {
      MinusShapeNumber(k, n);
    }
  }

  lemma MinusShapeNumber(k: string, n: int)
    requires n < 0 && KeyShaped(k, n)
    ensures NumberCourse(k) == Some(n)
  {
    var d := k[1..];
    assert k == "-" + d;
    MinusDigitsNumber(d, -n);
  }

  lemma DigitsNumber(d: string, m: nat)
    requires Text.AllDigits(d) && d != "" && Text.ParseDigits(d) == m
    ensures NumberCourse(d) == Some(m)
  {
    assert forall i :: 0 <= i < |d| ==> !Text.IsSpace(d[i]);
    Text.TrimWithoutSpace(d);
    assert SignedDigits(d) == Some(m);
  }

  lemma MinusDigitsNumber(d: string, m: nat)
    requires Text.AllDigits(d) && d != "" && Text.ParseDigits(d) == m
    ensures var v: int := m; NumberCourse("-" + d) == Some(-v)
  {
    var k := "-" + d;
    MinusNoSpace(d);
    Text.TrimWithoutSpace(k);
    SignedMinus(d, m);
  }

  lemma MinusNoSpace(d: string)
    requires Text.AllDigits(d)
    ensures var k := "-" + d; forall i :: 0 <= i < |k| ==> !Text.IsSpace(k[i])
  {
    var k := "-" + d;
    forall i | 0 <= i < |k|
      ensures !Text.IsSpace(k[i])
    {
      if i > 0 {
        assert k[i] == d[i - 1];
      }
    }
  }

  lemma SignedMinus(d: string, m: nat)
    requires Text.AllDigits(d) && d != "" && Text.ParseDigits(d) == m
    ensures var v: int := m; SignedDigits("-" + d) == Some(-v)
  {
    assert ("-" + d)[1..] == d;
  }

  /** On a course's own key text, converting first or not names the same course. */
  lemma ConversionAgreesOnKeys(n: int)
    ensures RawCourse(KeyText(n)) == NumberCourse(KeyText(n)) == Some(n)
  {
    RawCourseOfKey(n);
    NumberCourseOfKey(n);
  }

  /** A zero-padded parameter: converted it names course 1, raw it names no course. */
  lemma PaddedParam()
    ensures NumberCourse("01") == Some(1)
    ensures RawCourse("01") == None
  {
    PaddedDigits();
    DigitsNumber("01", 1);
    assert "01"[0] == '0';
  }

  lemma PaddedDigits()
    ensures Text.ParseDigits("01") == 1
  {
    assert "01"[..1] == "0";
    assert "0"[..0] == "";
  }

  // ---------------------------------------------------------------------------
  // userGuards

  /** The role list of course c, when c names a course that has one. */
  function CourseRoles(s: Session, c: Option<int>): Option<seq<CourseRole>> {
    if c.Some? && s.coursesRoles.Some? && c.value in s.coursesRoles.value then Some(s.coursesRoles.value[c.value]) else None
  }

  /** The role string of course c, when c names a course that has one. */
  function RoleOf(s: Session, c: Option<int>): Option<string> {
    if c.Some? && c.value in s.roles then Some(s.roles[c.value]) else None
  }

  /** `!!roles[c] || (coursesRoles?.[c] ?? false)`: any list, even an empty one, is truthy. */
  predicate HasRole(s: Session, c: Option<int>) {
    (RoleOf(s, c).Some? && RoleOf(s, c).value != "") || CourseRoles(s, c).Some?
  }

  /** `coursesRoles?.[c]?.includes(role) ?? false` */
  predicate HasCourseRole(s: Session, c: Option<int>, role: CourseRole) {
    CourseRoles(s, c).Some? && role in CourseRoles(s, c).value
  }

  predicate IsManager(s: Session, c: Option<int>) { HasCourseRole(s, c, Manager) }

  predicate IsSupervisor(s: Session, c: Option<int>) { HasCourseRole(s, c, Supervisor) }

  predicate IsTaskOwner(s: Session, c: Option<int>) { HasCourseRole(s, c, TaskOwner) }

  predicate IsMentor(s: Session, c: Option<int>) { RoleOf(s, c) == Some("mentor") }

  predicate IsStudent(s: Session, c: Option<int>) { RoleOf(s, c) == Some("student") }

  /** Some course key of `coursesRoles` lists `role`. */
  predicate IsAnyCourseRole(s: Session, role: CourseRole) {
    s.coursesRoles.Some? && exists c :: c in s.coursesRoles.value && role in s.coursesRoles.value[c]
  }

  predicate IsAnyManager(s: Session) { IsAnyCourseRole(s, Manager) }

  predicate IsAnySupervisor(s: Session) { IsAnyCourseRole(s, Supervisor) }

  /** Some role string contains `mentor` (a substring test, not equality). */
  predicate IsAnyMentor(s: Session) {
    exists c :: c in s.roles && Text.Contains(s.roles[c], "mentor")
  }

  predicate IsPowerUser(s: Session, c: Option<int>) { s.isAdmin || IsManager(s, c) }

  /** `user != null && (ctx.isAuthenticated() || config.isDevMode)` */
  predicate IsLoggedIn(r: Request)
    ensures IsLoggedIn(r) ==> r.user.Some?
    ensures r.user.Some? && (r.authenticated || r.devMode) ==> IsLoggedIn(r)
  {
    r.user.Some? && (r.authenticated || r.devMode)
  }

  // ---------------------------------------------------------------------------
  // The exported guards

  /**
   * The course a guard checks: `courseSupervisorGuard` uses the parameter as
   * it came, every other guard first replaces it by `Number(courseId)`.
   */
  function GuardCourse(g: Guard, p: string): (c: Option<int>)
    ensures g == CourseSupervisorGuard ==> c == RawCourse(p)
    ensures g != CourseSupervisorGuard ==> c == NumberCourse(p)
  {
    if g == CourseSupervisorGuard then RawCourse(p) else NumberCourse(p)
  }

  /** The role condition each guard adds to `isLoggedIn`. */
  predicate RoleCondition(g: Guard, s: Session, c: Option<int>)
    ensures s.isAdmin && g != AnyCourseMentorGuard ==> RoleCondition(g, s, c)
  {
    match g
    case PlainGuard => true
    case CourseGuard => HasRole(s, c) || IsPowerUser(s, c)
    case CourseMentorGuard => IsMentor(s, c) || IsSupervisor(s, c) || IsPowerUser(s, c)
    case AnyCourseMentorGuard => IsAnyMentor(s)
    case AdminGuard => s.isAdmin
    case TaskOwnerGuard => IsTaskOwner(s, c) || IsMentor(s, c) || IsPowerUser(s, c)
    case CourseManagerGuard => IsPowerUser(s, c)
    case AnyCourseManagerGuard => IsAnyManager(s) || s.isAdmin
    case AnyCoursePowerUserGuard => IsAnyManager(s) || IsAnySupervisor(s) || s.isAdmin
    case CourseSupervisorGuard => IsPowerUser(s, c) || IsSupervisor(s, c)
  }

  /**
   * The guard as written: `userGuards(user)` reads `user.coursesRoles` before
   * anything checks that there is a user, so a request without a session
   * user throws a TypeError instead of reaching basic authentication.
   */
  function DecideAsWritten(g: Guard, r: Request): (d: Decision)
    ensures d == Throws <==> r.user.None?
  {
    if r.user.None? then Throws
    else if IsLoggedIn(r) && RoleCondition(g, r.user.value, GuardCourse(g, r.courseParam)) then Next
    else BasicAuth
  }

  /** The guard as evidently intended: no session user means basic authentication decides. */
  function Decide(g: Guard, r: Request): (d: Decision)
    ensures d != Throws
    ensures d == Next <==> IsLoggedIn(r) && RoleCondition(g, r.user.value, GuardCourse(g, r.courseParam))
  {
    if IsLoggedIn(r) && RoleCondition(g, r.user.value, GuardCourse(g, r.courseParam)) then Next else BasicAuth
  }

  // ---------------------------------------------------------------------------
  // Properties of the predicates

  /** Without a `coursesRoles` entry for c there is no course manager, task owner or supervisor role, and power means admin. */
  lemma NoCourseEntry(s: Session, c: Option<int>)
    requires c.None? || s.coursesRoles.None? || c.value !in s.coursesRoles.value
    ensures !IsManager(s, c) && !IsTaskOwner(s, c) && !IsSupervisor(s, c)
    ensures IsPowerUser(s, c) <==> s.isAdmin
  {
  }

  /** `hasRole(c)` exactly when c has a non-empty role string or any `coursesRoles` entry, even an empty list. */
  lemma HasRoleCases(s: Session, c: int)
    ensures HasRole(s, Some(c)) <==>
              (c in s.roles && s.roles[c] != "")
              || (s.coursesRoles.Some? && c in s.coursesRoles.value)
    ensures s.coursesRoles.Some? && c in s.coursesRoles.value && s.coursesRoles.value[c] == [] ==> HasRole(s, Some(c))
    ensures !HasRole(s, None) && !IsMentor(s, None)
  {
  }

  /** `isAnyManager` holds exactly when the session manages some course. */
  lemma AnyManagerIffSomeCourse(s: Session)
    ensures IsAnyManager(s) <==> exists c :: IsManager(s, Some(c))
  {
    if IsAnyManager(s) {
      var c :| c in s.coursesRoles.value && Manager in s.coursesRoles.value[c];
      assert IsManager(s, Some(c));
    }
  }

  /** A mentor of one course is a mentor of some course. */
  lemma MentorIsAnyMentor(s: Session, c: int)
    requires IsMentor(s, Some(c))
    ensures IsAnyMentor(s)
  {
    Text.ContainsWhenOccurs(s.roles[c], "mentor", 0);
  }

  /** The substring test also counts role strings such as `coursementor`, which `isMentor` does not. */
  lemma AnyMentorBySubstring()
    ensures var s := Session(false, false, map[1 := "coursementor"], None);
            IsAnyMentor(s) && !IsMentor(s, Some(1))
  {
    var s := Session(false, false, map[1 := "coursementor"], None);
    assert Text.OccursAt(s.roles[1], "mentor", 6);
    Text.ContainsWhenOccurs(s.roles[1], "mentor", 6);
  }

  // ---------------------------------------------------------------------------
  // Properties of the guards

  /** With a session user, the guard as written and the intended one decide alike. */
  lemma AsWrittenAgreesWithUser(g: Guard, r: Request)
    requires r.user.Some?
    ensures DecideAsWritten(g, r) == Decide(g, r)
  {
  }

  /** The input that shows the defect: an anonymous request makes every guard throw. */
  lemma AnonymousRequestThrows(g: Guard)
    ensures DecideAsWritten(g, Request(None, false, false, "1")) == Throws
    ensures Decide(g, Request(None, false, false, "1")) == BasicAuth
  {
  }

  /**
   * Passing `courseManagerGuard` implies passing the other per-course guards
   * for the same parameter; `courseSupervisorGuard`, which skips the
   * conversion, only when the conversion does not change the course named
   * (as on every course's own key text, `ConversionAgreesOnKeys`).
   */
  lemma ManagerGuardSubsumes(r: Request)
    requires Decide(CourseManagerGuard, r) == Next
    ensures Decide(CourseGuard, r) == Next
    ensures Decide(CourseMentorGuard, r) == Next
    ensures Decide(TaskOwnerGuard, r) == Next
    ensures RawCourse(r.courseParam) == NumberCourse(r.courseParam) ==> Decide(CourseSupervisorGuard, r) == Next
  {
    ConvertedGuardsAdmit(r);
    if RawCourse(r.courseParam) == NumberCourse(r.courseParam) {
      SupervisorGuardAdmits(r);
    }
  }

  lemma ConvertedGuardsAdmit(r: Request)
    requires Decide(CourseManagerGuard, r) == Next
    ensures Decide(CourseGuard, r) == Next && Decide(CourseMentorGuard, r) == Next && Decide(TaskOwnerGuard, r) == Next
  {
    var c := NumberCourse(r.courseParam);
    assert GuardCourse(CourseManagerGuard, r.courseParam) == c;
    PowerUserRoles(r.user.value, c);
    assert GuardCourse(CourseGuard, r.courseParam) == c;
    assert GuardCourse(CourseMentorGuard, r.courseParam) == c;
    assert GuardCourse(TaskOwnerGuard, r.courseParam) == c;
  }

  lemma SupervisorGuardAdmits(r: Request)
    requires Decide(CourseManagerGuard, r) == Next
    requires RawCourse(r.courseParam) == NumberCourse(r.courseParam)
    ensures Decide(CourseSupervisorGuard, r) == Next
  {
    var c := NumberCourse(r.courseParam);
    assert GuardCourse(CourseManagerGuard, r.courseParam) == c;
    PowerUserRoles(r.user.value, c);
    assert GuardCourse(CourseSupervisorGuard, r.courseParam) == c;
  }

  /** A power user of a course meets the role condition of every per-course guard for it. */
  lemma PowerUserRoles(s: Session, c: Option<int>)
    requires RoleCondition(CourseManagerGuard, s, c)
    ensures RoleCondition(CourseGuard, s, c) && RoleCondition(CourseMentorGuard, s, c)
    ensures RoleCondition(TaskOwnerGuard, s, c) && RoleCondition(CourseSupervisorGuard, s, c)
  {
  }

  /**
   * The difference the skipped conversion makes: a manager of course 1 asking
   * with the parameter `01` passes `courseManagerGuard` but not
   * `courseSupervisorGuard`.
   */
  lemma SupervisorGuardSkipsConversion()
    ensures var r := Request(Some(Session(false, false, map[], Some(map[1 := [Manager]]))), true, false, "01");
            Decide(CourseManagerGuard, r) == Next && Decide(CourseSupervisorGuard, r) == BasicAuth
  {
    PaddedParam();
    ManagerOfOne("01");
  }

  /** A manager of course 1 and a parameter that names course 1 only once converted. */
  lemma ManagerOfOne(p: string)
    requires NumberCourse(p) == Some(1) && RawCourse(p) == None
    ensures var r := Request(Some(Session(false, false, map[], Some(map[1 := [Manager]]))), true, false, p);
            Decide(CourseManagerGuard, r) == Next && Decide(CourseSupervisorGuard, r) == BasicAuth
  {
    var s := Session(false, false, map[], Some(map[1 := [Manager]]));
    ManagerOfOneRoles(s);
    assert GuardCourse(CourseManagerGuard, p) == Some(1);
    assert GuardCourse(CourseSupervisorGuard, p) == None;
  }

  lemma ManagerOfOneRoles(s: Session)
    requires s == Session(false, false, map[], Some(map[1 := [Manager]]))
    ensures RoleCondition(CourseManagerGuard, s, Some(1)) && !RoleCondition(CourseSupervisorGuard, s, None)
  {
    assert CourseRoles(s, Some(1)) == Some([Manager]);
  }

  /** A logged-in admin passes every guard but `anyCourseMentorGuard`. */
  lemma AdminPasses(g: Guard, r: Request)
    requires IsLoggedIn(r) && r.user.value.isAdmin
    requires g != AnyCourseMentorGuard
    ensures Decide(g, r) == Next
  {
    AdminRoles(g, r.user.value, GuardCourse(g, r.courseParam));
  }

  lemma AdminRoles(g: Guard, s: Session, c: Option<int>)
    requires s.isAdmin && g != AnyCourseMentorGuard
    ensures RoleCondition(g, s, c)
  {
  }

  /** ... which an admin without a mentor role does not pass. */
  lemma AdminNotAnyMentor()
    ensures Decide(AnyCourseMentorGuard, Request(Some(Session(true, false, map[], None)), true, false, "1")) == BasicAuth
  {
  }
}
