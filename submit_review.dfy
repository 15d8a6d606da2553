/**
 * The mentor's review submission page
 * (client/src/pages/course/mentor/submit-review.tsx): which course tasks a
 * user may submit a review score for, the task-owner test, the shown maximum
 * score, and the guards of the task selection and of the submit.
 */
module SubmitReview {
  import opened Wrappers

  /** A `taskOwnerRole.courses` entry: a course and, optionally (None: the field is absent), the tasks owned in it. */
  datatype OwnedCourse = OwnedCourse(id: int, tasksIds: Option<seq<int>>)

  /** The client session: `isAdmin`, `roles` per course and the optional `courseRoles.taskOwnerRole`. */
  datatype Session = Session(
    isAdmin: bool,
    roles: map<int, string>,
    courseRoles: Option<Option<seq<OwnedCourse>>>)

  datatype ReviewTask = ReviewTask(
    id: int,
    courseTaskId: Option<int>,
    checker: string,
    verification: string,
    studentEndDate: Option<string>,
    useJury: bool,
    maxScore: Option<int>)

  // ---------------------------------------------------------------------------
  // Eligibility

  predicate IsCourseManager(s: Session, courseId: int) { courseId in s.roles && s.roles[courseId] == "coursemanager" }

  predicate IsMentor(s: Session, courseId: int) { courseId in s.roles && s.roles[courseId] == "mentor" }

  predicate IsPowerMentor(s: Session, courseId: int) { s.isAdmin || IsCourseManager(s, courseId) }

  /** The first owned-course entry for `courseId`. */
  function OwnedEntry(courses: seq<OwnedCourse>, courseId: int): (r: Option<OwnedCourse>)
    ensures r.Some? ==> r.value in courses && r.value.id == courseId
    ensures r.None? ==> forall c :: c in courses ==> c.id != courseId
  {
    if courses == [] then None
    else if courses[0].id == courseId then Some(courses[0])
    else OwnedEntry(courses[1..], courseId)
  }

  /** `isTaskOwner`: the task id is among the `tasksIds` (default `[]`) of the course's first entry. */
  predicate IsTaskOwner(s: Session, courseId: int, taskId: int)
    ensures IsTaskOwner(s, courseId, taskId) ==>
              s.courseRoles.Some? && s.courseRoles.value.Some?
              && exists c :: c in s.courseRoles.value.value && c.id == courseId && c.tasksIds.Some? && taskId in c.tasksIds.value
  {
    s.courseRoles.Some? && s.courseRoles.value.Some?
    && var entry := OwnedEntry(s.courseRoles.value.value, courseId);
       entry.Some? && taskId in entry.value.tasksIds.GetOr([])
  }

  predicate HasStudentEndDate(t: ReviewTask) { t.studentEndDate.Some? && t.studentEndDate.value != "" }

  predicate CheckedByTaskOwner(t: ReviewTask) { t.checker == "taskOwner" }

  predicate SubmittedByTaskOwner(s: Session, courseId: int, t: ReviewTask) {
    IsTaskOwner(s, courseId, t.id) && CheckedByTaskOwner(t)
  }

  predicate SubmittedByMentor(s: Session, courseId: int, t: ReviewTask) {
    && HasStudentEndDate(t)
    && t.verification != "auto"
    && !t.useJury
    && t.checker == "mentor"
    && (IsMentor(s, courseId) || IsPowerMentor(s, courseId))
  }

  predicate SubmittedByPowerAdmin(s: Session, courseId: int, t: ReviewTask) {
    IsPowerMentor(s, courseId) && (CheckedByTaskOwner(t) || SubmittedByMentor(s, courseId, t))
  }

  /** The `filter` condition: the task is offered for review. */
  predicate Offered(s: Session, courseId: int, t: ReviewTask) {
    SubmittedByPowerAdmin(s, courseId, t) || SubmittedByTaskOwner(s, courseId, t) || SubmittedByMentor(s, courseId, t)
  }

  /** The tasks offered, in the order loaded (after `sortTasksByEndDate`). */
  function OfferedTasks(s: Session, courseId: int, tasks: seq<ReviewTask>): (r: seq<ReviewTask>)
    ensures |r| <= |tasks|
    ensures forall t :: t in r <==> t in tasks && Offered(s, courseId, t)
  {
    if tasks == [] then []
    else (if Offered(s, courseId, tasks[0]) then [tasks[0]] else []) + OfferedTasks(s, courseId, tasks[1..])
  }

  /** A power mentor (admin or course manager) is offered every task checked by its task owner. */
  lemma PowerMentorGetsTaskOwnerTasks(s: Session, courseId: int, t: ReviewTask)
    requires IsPowerMentor(s, courseId) && CheckedByTaskOwner(t)
    ensures Offered(s, courseId, t)
  {
  }

  /**
   * Whoever is neither a power mentor nor the task's owner is offered a task
   * exactly when it is a mentor-checked, manually verified, jury-free task
   * with an end date and the user mentors the course.
   */
  lemma PlainMentorOffer(s: Session, courseId: int, t: ReviewTask)
    requires !IsPowerMentor(s, courseId) && !IsTaskOwner(s, courseId, t.id)
    ensures Offered(s, courseId, t) <==>
              HasStudentEndDate(t) && t.verification != "auto" && !t.useJury && t.checker == "mentor"
              && IsMentor(s, courseId)
  {
  }

  /** A task owner is offered its own task-owner-checked tasks, whatever its course role. */
  lemma OwnerGetsOwnTasks(s: Session, courseId: int, t: ReviewTask)
    requires IsTaskOwner(s, courseId, t.id) && CheckedByTaskOwner(t)
    ensures Offered(s, courseId, t)
  {
  }

  /** Without `courseRoles`, without a task-owner role or without an entry for the course, nobody owns a task. */
  lemma NoOwnerEntry(s: Session, courseId: int, taskId: int)
    requires s.courseRoles.None? || s.courseRoles.value.None?
             || forall c :: c in s.courseRoles.value.value ==> c.id != courseId
    ensures !IsTaskOwner(s, courseId, taskId)
  {
  }

  /** Only the first entry for the course counts: a later entry listing the task is ignored. */
  lemma FirstEntryOnly()
    ensures var s := Session(false, map[], Some(Some([OwnedCourse(1, None), OwnedCourse(1, Some([7]))])));
            !IsTaskOwner(s, 1, 7)
  {
  }

  /** The filter keeps the loaded order: it distributes over concatenation. */
  lemma {:induction false} OfferedTasksAppend(s: Session, courseId: int, a: seq<ReviewTask>, b: seq<ReviewTask>)
    ensures OfferedTasks(s, courseId, a + b) == OfferedTasks(s, courseId, a) + OfferedTasks(s, courseId, b)
  {
    if a != [] {
      assert (a + b)[1..] == a[1..] + b;
      OfferedTasksAppend(s, courseId, a[1..], b);
    } else {
      assert a + b == b;
    }
  }

  // ---------------------------------------------------------------------------
  // Page state

  /** `courseTasks.find(t => t.id === courseTaskId)`: the first task with that id. */
  function FindById(tasks: seq<ReviewTask>, id: int): (r: Option<ReviewTask>)
    ensures r.Some? ==> exists k :: 0 <= k < |tasks| && tasks[k] == r.value && r.value.id == id
                                   && forall j :: 0 <= j < k ==> tasks[j].id != id
    ensures r.None? <==> forall t :: t in tasks ==> t.id != id
  {
    if tasks == [] then None
    else if tasks[0].id == id then Some(tasks[0])
    else
      var r := FindById(tasks[1..], id);
      assert forall k :: 1 <= k < |tasks| ==> tasks[k] == tasks[1..][k - 1];
      r
  }

  /** `courseTask ? courseTask.maxScore || 100 : undefined`: 0 and null both become 100. */
  function MaxScore(tasks: seq<ReviewTask>, selected: int): (r: Option<int>)
    ensures r.None? <==> FindById(tasks, selected).None?
    ensures r.Some? ==> r.value != 0
    ensures var t := FindById(tasks, selected);
            t.Some? && t.value.maxScore.Some? && t.value.maxScore.value != 0 ==> r == t.value.maxScore
    ensures var t := FindById(tasks, selected);
            t.Some? && (t.value.maxScore.None? || t.value.maxScore == Some(0)) ==> r == Some(100)
  {
    match FindById(tasks, selected)
    case None => None
    case Some(t) => Some(if t.maxScore.None? || t.maxScore.value == 0 then 100 else t.maxScore.value)
  }

  datatype PageState = PageState(courseTasks: seq<ReviewTask>, courseTaskId: Option<int>, isLoading: bool)

  /** The task whose `courseTaskId` field equals the value (`find`, which yields undefined when none does). */
  function FindByCourseTaskId(tasks: seq<ReviewTask>, value: int): (r: Option<ReviewTask>)
    ensures r.Some? ==> exists k :: 0 <= k < |tasks| && tasks[k] == r.value && r.value.courseTaskId == Some(value)
                                   && forall j :: 0 <= j < k ==> tasks[j].courseTaskId != Some(value)
    ensures r.None? <==> forall t :: t in tasks ==> t.courseTaskId != Some(value)
  {
    if tasks == [] then None
    else if tasks[0].courseTaskId == Some(value) then Some(tasks[0])
    else
      var r := FindByCourseTaskId(tasks[1..], value);
      assert forall k :: 1 <= k < |tasks| ==> tasks[k] == tasks[1..][k - 1];
      r
  }

  /**
   * `handleTaskChange` as written: it bails out when the lookup is `null`,
   * which `find` never returns, so every value is stored.
   */
  function TaskChangeAsWritten(st: PageState, value: int): (r: PageState)
    ensures r == st.(courseTaskId := Some(value))
  {
    if StrictlyNull(FindByCourseTaskId(st.courseTasks, value)) then st else st.(courseTaskId := Some(value))
  }

  /** `=== null` on what `find` yields: a task object or undefined, neither of which is null. */
  predicate StrictlyNull(found: Option<ReviewTask>) {
    match found
    case None => false
    case Some(_) => false
  }

  /** The input that shows it: a value no task carries is stored anyway. */
  lemma UnknownTaskStoredAsWritten()
    ensures var st := PageState([], None, false);
            FindByCourseTaskId(st.courseTasks, 999).None? && TaskChangeAsWritten(st, 999).courseTaskId == Some(999)
  {
  }

  /** `handleTaskChange` as intended: a value no task carries leaves the state alone. */
  function TaskChange(st: PageState, value: int): (r: PageState)
    ensures FindByCourseTaskId(st.courseTasks, value).None? ==> r == st
    ensures FindByCourseTaskId(st.courseTasks, value).Some? ==> r == st.(courseTaskId := Some(value))
  {
    if FindByCourseTaskId(st.courseTasks, value).None? then st else st.(courseTaskId := Some(value))
  }

  /** With the intended guard, the stored selection always names a loaded task (if it did before). */
  lemma TaskChangeKeepsSelectionValid(st: PageState, value: int)
    requires st.courseTaskId.Some? ==> FindByCourseTaskId(st.courseTasks, st.courseTaskId.value).Some?
    ensures var r := TaskChange(st, value);
            r.courseTaskId.Some? ==> FindByCourseTaskId(r.courseTasks, r.courseTaskId.value).Some?
  {
  }

  datatype SubmitStep = SubmitStep(state: PageState, posts: bool)

  /** `handleSubmit` up to the request: a failed validation or a submit in flight changes nothing. */
  function Submit(st: PageState, validationFailed: bool): (r: SubmitStep)
    ensures r.posts <==> !validationFailed && !st.isLoading
    ensures r.posts ==> r.state == st.(isLoading := true)
    ensures !r.posts ==> r.state == st
  {
    if validationFailed || st.isLoading then SubmitStep(st, false)
    else SubmitStep(st.(isLoading := true), true)
  }

  /** A second submit while the first is in flight posts nothing. */
  lemma NoDoubleSubmit(st: PageState, firstFailed: bool, secondFailed: bool)
    requires Submit(st, firstFailed).posts
    ensures !Submit(Submit(st, firstFailed).state, secondFailed).posts
  {
  }
}
