# rsschool-api: score job, guards and page logic in Dafny

This project models the deterministic business logic of the RS School
course platform (rsschool-api), and proves properties of that model:

- **The nightly score job** (`server/src/schedule.ts`). For every course it
  loads the students and the course tasks. It recomputes each student's
  total as the weighted sum of their task results, rounded to one decimal.
  It then sorts the students by the new total, descending and stably,
  assigns ranks 1..N, and saves only the students whose total or rank
  changed. The first course whose load or save fails ends the whole run.
- **The route guards** (`server/src/routes/guards.ts`). These are the
  per-session role predicates and the ten Koa guards. Each guard either
  passes the request on or falls back to basic auth. The `courseId` route
  parameter is kept as text: the per-course guards convert it with `Number`
  before the role lookup, `courseSupervisorGuard` looks it up as it came.
- **The course service converters** (`server/src/services/courseService.ts`):
  - mentor and student DTOs;
  - the mentors' task statistics;
  - the score table of `getScoreStudents`;
  - `isPowerUser`.
- **The student auto-test page** (`client/src/pages/course/student/auto-test.tsx`):
  - which tasks are offered;
  - the submission payload per task type;
  - the submit handler;
  - the slice of shuffled self-education questions.
- **The schedule page** (`client/src/pages/course/schedule.tsx`). Course tasks
  become start and deadline rows and are merged with the events. The rows
  are sorted by date and given keys and type labels.
- **The mentor's submit-review page** (`client/src/pages/course/mentor/submit-review.tsx`):
  - which tasks a user may review;
  - the task-owner test;
  - the maximum score;
  - the task-change and submit handlers.
- **The table renderers** (`client/src/components/Table/renderers.tsx`).
- **The employer page** (`client/src/pages/employer/index.tsx`):
  - badge counting, modelled as an imperative loop over a dictionary;
  - the zero padding of the expiry date;
  - the course-status cascade;
  - the empty-cell texts;
  - the row mapping.

Modules:

| module | file |
|---|---|
| `Wrappers` | `Option` |
| `Sorting` | the stable sort the JavaScript `Array.prototype.sort` performs |
| `Text` | `includes`, `trim`, `toUpperCase`, number-to-string, code-point string order and UTF-16 code units |
| `ScoreJob`, `Guards`, `CourseService`, `AutoTest`, `Schedule`, `SubmitReview`, `Renderers`, `Employer` | one per source file |

Modelling choices:

- Scores are exact reals. The weight map is lodash `keyBy` followed by
  `mapValues`, so the last task with an id wins.
- Wall-clock time, the shuffle and HTTP/DB results are parameters.
- JavaScript `null`/`undefined` become `Option`. Truthiness is spelled out
  per value: the empty string, `0`, `null` and `undefined` are falsy.
- The course loop of the score job has no try/catch: a failed course aborts
  the remaining courses, and the model does the same.
- Strings are sequences of Unicode scalar values. JavaScript's `length` and
  `slice` count UTF-16 code units, so the one renderer that measures and cuts
  a string, `stringTrimRenderer`, works on `Text.CodeUnit` sequences, with
  `Text.Utf16` as the encoding. The two counts agree on text without
  characters outside the Basic Multilingual Plane.

## Model

| member | source | states |
|---|---|---|
| ScoreJob.Round1 | server/src/schedule.ts:26 | the rounded total is within 0.05 of the weighted sum and has at most one decimal |
| ScoreJob.Round1Idempotent | server/src/schedule.ts:26 | rounding an already rounded total changes nothing |
| ScoreJob.UnknownTaskWeight | server/src/schedule.ts:21-25 | a result for a task the course does not have is weighted 1 (`?? 1`) |
| ScoreJob.KnownTaskWeight | server/src/schedule.ts:21-25 | a result for a course task uses the weight of the last task with that id, or 1 when that weight is null |
| ScoreJob.ZeroWeightCounts | server/src/schedule.ts:25 | a zero weight is a real weight, not replaced by 1: such a result adds nothing |
| ScoreJob.WeightedSumAppend | server/src/schedule.ts:25 | the weighted sum of concatenated results is the sum of the parts |
| ScoreJob.HigherOrEqualIsTotalPreorder | server/src/schedule.ts:36 | the descending-total comparator is total and transitive |
| ScoreJob.SortedScoresLength | server/src/schedule.ts:36 | sorting keeps every scored row |
| ScoreJob.RankingRows | server/src/schedule.ts:23-41 | one ranked row per student; rank i+1 at position i; ids a permutation of the students'; every row describes some student and every student is described by some row |
| ScoreJob.RankedRowDescribes | server/src/schedule.ts:24-41 | the ranked row at a student's sorted position carries that student's id, new total, change date and changed flag |
| ScoreJob.RankedRowsDescribed | server/src/schedule.ts:23-41 | every ranked row comes from an input student |
| ScoreJob.StudentsRanked | server/src/schedule.ts:23-41 | every input student appears in the ranking |
| ScoreJob.RankingIds | server/src/schedule.ts:23-41 | the ranked ids are a permutation of the input ids |
| ScoreJob.RanksArePermutation | server/src/schedule.ts:37-41 | ranks are exactly 1..N, each used once |
| ScoreJob.RankMonotone | server/src/schedule.ts:36-41 | a strictly higher new total gets a strictly smaller rank |
| ScoreJob.RanksFollowOrder | server/src/schedule.ts:37-41 | on rows sorted by descending total, rank order follows total order |
| ScoreJob.IdsWithTotalPointwise | server/src/schedule.ts:37-41 | assigning ranks does not change which ids have a given total, or their order |
| ScoreJob.IdsWithTotalTies | server/src/schedule.ts:36 | the ids with a total are those of the rows tied with it |
| ScoreJob.IdsScoringAll | server/src/schedule.ts:24-35 | scoring maps the students with a given new total in input order |
| ScoreJob.RankStable | server/src/schedule.ts:36-41 | students with equal new totals are ranked in their input order (stable sort) |
| ScoreJob.EmitExact | server/src/schedule.ts:42-43 | exactly the changed rows are emitted, without the `changed` flag |
| ScoreJob.EmittedIdKnown | server/src/schedule.ts:23-43 | every ranked row's id is one of the input students' |
| ScoreJob.ComputeUpdates | server/src/schedule.ts:21-43 | at most one update per student (what each update is: UpdatesExact) |
| ScoreJob.AssignRanks | server/src/schedule.ts:37-41 | one ranked row per sorted row (the ranks themselves: RanksArePermutation, RanksFollowOrder) |
| ScoreJob.Emit | server/src/schedule.ts:42-43 | at most one update per ranked row (which ones: EmitExact) |
| ScoreJob.UpdatesExact | server/src/schedule.ts:21-43 | a student's update is saved iff its total or rank moved; at most N updates, all for known students |
| ScoreJob.PositionOfUnique | server/src/schedule.ts:37-41 | with distinct ids, the position of a row's id is that row's index |
| ScoreJob.FindUpdateNone | server/src/schedule.ts:42-45 | no update is saved for an id that was not ranked |
| ScoreJob.FindUpdateEmitted | server/src/schedule.ts:42-45 | the update saved for a ranked student is its stripped row iff the row changed |
| ScoreJob.UniqueAlongPipeline | server/src/schedule.ts:23-41 | distinct student ids stay distinct through scoring, sorting and ranking |
| ScoreJob.SettledRow | server/src/schedule.ts:23-45 | after the saved updates are applied, a student rescored later has the total and rank just saved and is unchanged |
| ScoreJob.Idempotent | server/src/schedule.ts:21-45 | re-running the job on the saved state, at any later time, saves nothing |
| ScoreJob.NothingChangedEmitsNothing | server/src/schedule.ts:42 | rows that did not change produce no update |
| ScoreJob.FirstFailure | server/src/schedule.ts:13-53 | the index of the first course whose load or save fails, with every earlier course running through |
| ScoreJob.RunScoreJob | server/src/schedule.ts:13-53 | courses are processed in order, each saving its computed updates; the run completes or aborts at the first failing course, saving nothing after it |
| ScoreJob.RunCourses | server/src/schedule.ts:13-53 | the same loop with the per-course batch computation as a parameter: course k is saved with that computation's batch exactly when every course up to k loads and saves |
| ScoreJob.ProcessCourse | server/src/schedule.ts:14-45 | one iteration yields a batch exactly when the course's fetch and save both resolve, and the batch is the one computed from its students and tasks |
| ScoreJob.FailureAt | server/src/schedule.ts:13-53 | a course that fails after all earlier ones ran through is the first failure |
| Sorting.SortBy | server/src/schedule.ts:36 | the sort keeps length and multiset of the rows |
| Sorting.SortedBySort | server/src/schedule.ts:36 | under a total preorder the result is sorted |
| Sorting.SortStable | server/src/schedule.ts:36 | rows tied with a value keep their relative input order |
| Sorting.SortMapMultiset | server/src/schedule.ts:36 | sorting and then projecting is a permutation of the projection |
| Sorting.DistinctPermutation | server/src/schedule.ts:36 | a permutation of distinct values is distinct |
| Guards.DecideAsWritten | server/src/routes/guards.ts:12-152 | as written, a guard throws exactly when there is no user in the session |
| Guards.AnonymousRequestThrows | server/src/routes/guards.ts:13 | an anonymous request throws as written, where the intended guard falls back to basic auth |
| Guards.Decide | server/src/routes/guards.ts:26-152 | as intended, a guard never throws and passes iff the user is logged in and the guard's role condition holds; otherwise basic auth |
| Guards.RawCourse | server/src/routes/guards.ts:146-147 | a parameter used unconverted names the course whose key text it is |
| Guards.RawCourseExact | server/src/routes/guards.ts:146-147 | unconverted, a parameter names course n exactly when it is n's key text |
| Guards.NumberCourse | server/src/routes/guards.ts:48-49 | a blank parameter converts to course 0, as `Number('')` does |
| Guards.IsLoggedIn | server/src/routes/guards.ts:26 | logged in only with a session user, and always when that user is authenticated or the server is in dev mode |
| Guards.RoleCondition | server/src/routes/guards.ts:45-152 | a session admin meets the role condition of every guard but the any-course-mentor guard |
| Guards.NumberCourseOfKey | server/src/routes/guards.ts:48-49 | `Number` of a course's key text names that course |
| Guards.ConversionAgreesOnKeys | server/src/routes/guards.ts:48-147 | on a course's own key text, converting or not names the same course |
| Guards.PaddedParam | server/src/routes/guards.ts:48-147 | `01` converts to course 1 but names no course unconverted |
| Guards.GuardCourse | server/src/routes/guards.ts:48-147 | the supervisor guard checks the raw parameter, every other guard its `Number` conversion |
| Guards.SupervisorGuardSkipsConversion | server/src/routes/guards.ts:112-152 | a manager of course 1 asking with `01` passes the course-manager guard but not the supervisor guard |
| Guards.AsWrittenAgreesWithUser | server/src/routes/guards.ts:12-152 | when a user is present, the as-written and intended guards decide the same |
| Guards.NoCourseEntry | server/src/routes/guards.ts:21-31 | without a course entry, nobody is manager, task owner or supervisor there, and only admins are power users |
| Guards.HasRoleCases | server/src/routes/guards.ts:17 | `hasRole` holds iff a non-empty role or a course-roles entry exists (an empty entry list counts) |
| Guards.AnyManagerIffSomeCourse | server/src/routes/guards.ts:18-21 | being any-course manager is being manager of some course |
| Guards.MentorIsAnyMentor | server/src/routes/guards.ts:22-23 | a course mentor is an any-course mentor |
| Guards.AnyMentorBySubstring | server/src/routes/guards.ts:23 | `isAnyMentor` matches any role containing `mentor` |
| Guards.ManagerGuardSubsumes | server/src/routes/guards.ts:45-152 | passing the course-manager guard passes the course, mentor and task-owner guards, and the supervisor guard whenever the parameter names the same course converted or not, as every course's own key text does |
| Guards.AdminPasses | server/src/routes/guards.ts:35-152 | a logged-in admin passes every guard but the any-course-mentor guard |
| Guards.AdminNotAnyMentor | server/src/routes/guards.ts:74-83 | an admin without a mentor role is not let through the any-course-mentor guard |
| CourseService.LocationName | server/src/services/courseService.ts:93 | `locationName \|\| null`: present iff non-empty |
| CourseService.ActiveStudentIds | server/src/services/courseService.ts:72 | at most one id per student |
| CourseService.ActiveStudentIdsExact | server/src/services/courseService.ts:72 | an id is listed iff some active (not expelled, not failed) student has it |
| CourseService.ActiveStudentIdsAppend | server/src/services/courseService.ts:72 | the filter keeps the students' order |
| CourseService.FullName | server/src/services/courseService.ts:69 | the full name is at most first, space and last long, and has no white space at either end |
| CourseService.FullNameOfTrimmed | server/src/services/courseService.ts:69 | names without white space at their outer ends give exactly `first last` |
| CourseService.ToMentorBasic | server/src/services/courseService.ts:65-74 | the trimmed full name, the mentor's id and the user's GitHub id; active iff not expelled; missing students give an empty list, otherwise the active students' ids |
| CourseService.ToMentorDetails | server/src/services/courseService.ts:100-113 | the basic fields, the whole unfiltered student list (overriding the basic's active ids) and its length, the non-empty location, the country, the limit, the preference and the interview count (0 without interviews) |
| CourseService.ToStudentBasic | server/src/services/courseService.ts:76-86 | the trimmed full name, the student's id, the GitHub id and the total score; active iff neither expelled nor failed; a mentor is present iff the student has one, and it is then that mentor's basic DTO |
| CourseService.ToStudentDetails | server/src/services/courseService.ts:88-98 | extends the basic DTO with the non-empty location name, the country looked up through the city and the repository; missing interviews give an empty list |
| CourseService.CountryName | server/src/services/courseService.ts:94 | the country is never empty: it is a country of the table or `Other` |
| CourseService.CountryOfKnownCity | server/src/services/courseService.ts:94 | a known city whose country has a non-empty name gives that name |
| CourseService.CountryFallback | server/src/services/courseService.ts:94 | a city missing from the table gives `Other` |
| CourseService.NullLocationKey | server/src/services/courseService.ts:93-94 | a null location gives no location name, and its country is the one looked up under the key `null` |
| CourseService.SameUserSameDetails | server/src/services/courseService.ts:88-112 | a student and a mentor of the same user get the same name, GitHub id, location name and country |
| CourseService.MentorStats | server/src/services/courseService.ts:313-330 | `total` is the student count times the number of eligible tasks and `checked` the sum of the students' result counts, both zero without students |
| CourseService.CheckedWithinTotal | server/src/services/courseService.ts:316-327 | when no student has more results than eligible tasks, `checked` does not exceed `total` |
| CourseService.CheckedCountAppend | server/src/services/courseService.ts:327 | the checked count is additive over the students |
| CourseService.MergedResults | server/src/services/courseService.ts:414-422 | regular results first, then interview results with a missing score read as 0; no regular results gives an empty list |
| CourseService.ToScoreRow | server/src/services/courseService.ts:412-436 | rank is the position plus one; course, ids, trimmed name, GitHub id and total score copied; a mentor iff the student has one, converted; the location or `''`; the merged results; active iff neither expelled nor failed |
| CourseService.ScoreStudents | server/src/services/courseService.ts:410-437 | one row per student |
| CourseService.ScoreStudentsRanked | server/src/services/courseService.ts:410-437 | one row per student, rank i+1 at position i, totals non-increasing |
| CourseService.ScoreStudentsRows | server/src/services/courseService.ts:410-437 | every student gets its converted row at some rank |
| CourseService.IsPowerUser | server/src/services/courseService.ts:455-457 | every admin is a power user; a non-admin without a role in the course is not |
| CourseService.PowerIsPerCourse | server/src/services/courseService.ts:455-457 | a course manager is a power user of that course only |
| AutoTest.FilterAutoTestTasks | client/src/pages/course/student/auto-test.tsx:329-342 | a task is kept iff it has an end date, is not past or is codewars, is auto-verified, not task-owner checked and not a test |
| AutoTest.FilterAppend | client/src/pages/course/student/auto-test.tsx:329-342 | the filter keeps the loaded order |
| AutoTest.CodewarsExemptFromDate | client/src/pages/course/student/auto-test.tsx:332-337 | codewars tasks are offered even after their end date; other tasks only before it |
| AutoTest.NumberOf | client/src/pages/course/student/auto-test.tsx:357 | an index is read iff the text is all digits (the empty text giving 0), and then it is the digits' value; anything else is NaN |
| AutoTest.AfterAnswerDash | client/src/pages/course/student/auto-test.tsx:356 | the capture of `/answer-(.*)$/`: none iff `answer-` does not occur in the key, otherwise the rest of the key after its first occurrence |
| AutoTest.Answers | client/src/pages/course/student/auto-test.tsx:353-358 | at most one answer per form entry (which ones: AnswersExact) |
| AutoTest.AnswersExact | client/src/pages/course/student/auto-test.tsx:353-358 | the answers match one to one, in order, the entries whose key contains `answer`: each carries `Number` of its key's capture as index and the entry's value, and every such entry gives one |
| AutoTest.AnswerOfDigits | client/src/pages/course/student/auto-test.tsx:353-358 | an entry `answer-<digits>` gives one answer, with the digits' value as index and the entry's value |
| AutoTest.FormValue | client/src/pages/course/student/auto-test.tsx:364-370 | the form value under a key: none iff no entry has the key, otherwise the value of the first entry that does |
| AutoTest.SecondSegment | client/src/pages/course/student/auto-test.tsx:373 | `split(':')[1]` is absent iff the text has no colon |
| AutoTest.SecondSegmentAt | client/src/pages/course/student/auto-test.tsx:373 | with the first colon at i, `split(':')[1]` is the first segment of the text after i |
| AutoTest.StageVariant | client/src/pages/course/student/auto-test.tsx:373 | `codewars:` followed by a colon-free stage splits to that stage |
| AutoTest.FirstSegment | client/src/pages/course/student/auto-test.tsx:373 | the first `:`-segment is the colon-free prefix that stops at the first colon, or the whole text |
| AutoTest.SegmentAfterPrefix | client/src/pages/course/student/auto-test.tsx:373 | `split(':')[1]` of `codewars:stageN` is `stageN` |
| AutoTest.FirstSegmentWhole | client/src/pages/course/student/auto-test.tsx:373 | a colon-free text is its own first segment |
| AutoTest.SubmitData | client/src/pages/course/student/auto-test.tsx:349-397 | self-education posts the answers; codewars posts nothing iff the account is missing or empty, else the form's account with the task's end date as deadline; `jstask`/`kotlintask`/`objctask` post the task's repository name and URL; `cv:*` and a null type post an empty body |
| AutoTest.CodewarsVariant | client/src/pages/course/student/auto-test.tsx:369-374 | the variant is `stage1`/`stage2` for the staged types and absent for plain codewars |
| AutoTest.UnknownTypeNoPayload | client/src/pages/course/student/auto-test.tsx:392-393 | any other task type posts nothing |
| AutoTest.FindTask | client/src/pages/course/student/auto-test.tsx:60 | `find` by id: the first task with the id; none iff no task has it |
| AutoTest.HandleSubmit | client/src/pages/course/student/auto-test.tsx:58-73 | a submit posts exactly when the task is known and has a payload, and then posts that payload for that task |
| AutoTest.SliceLength | client/src/pages/course/student/auto-test.tsx:33-36 | `slice(0, end)` length for a missing, non-negative or negative end |
| AutoTest.ShownQuestions | client/src/pages/course/student/auto-test.tsx:25-42 | the shown questions number the slice length, each carries its original index and question, and no index repeats |
| AutoTest.ShownCount | client/src/pages/course/student/auto-test.tsx:33-36 | without a limit all questions are shown, else the smaller of the limit and the count |
| AutoTest.SelectedTask | client/src/pages/course/student/auto-test.tsx:25-42 | the selected task is the one found by id; it gets a question slice iff it is self-education |
| Schedule.TaskRows | client/src/pages/course/schedule.tsx:84-105 | a test task gives one `test` row; any other task a start row and a `deadline` row |
| Schedule.ExpandTasks | client/src/pages/course/schedule.tsx:83-107 | the `reduce` that pushes rows builds exactly the expansion of the tasks |
| Schedule.ExpandedLength | client/src/pages/course/schedule.tsx:83-107 | rows = 2 per non-test task + 1 per test task |
| Schedule.ExpandedSplit | client/src/pages/course/schedule.tsx:83-107 | each task's rows follow those of the tasks before it |
| Schedule.EarlierOrSameIsTotalPreorder | client/src/pages/course/schedule.tsx:109 | the date comparison is total and transitive |
| Schedule.LoadSchedule | client/src/pages/course/schedule.tsx:77-110 | the data is the events followed by the task rows, stably sorted by date |
| Schedule.ScheduleShape | client/src/pages/course/schedule.tsx:81-109 | the data is a permutation of events and task rows, of the expected length, sorted by date |
| Schedule.RowKey | client/src/pages/course/schedule.tsx:140 | deadline rows are keyed `<id>d`, others by the id's digits; the digits read back as the id |
| Schedule.StartAndDeadlineKeysDiffer | client/src/pages/course/schedule.tsx:84-140 | a task's start and deadline rows get different keys |
| Schedule.DeadlineTypedTaskKeysClash | client/src/pages/course/schedule.tsx:90-140 | unless the task's own type is `deadline`: then both rows share a key |
| Schedule.TypeLabel | client/src/pages/course/schedule.tsx:48-153 | the label is the mapped name, or the raw type |
| SubmitReview.OwnedEntry | client/src/pages/course/mentor/submit-review.tsx:137 | the first owned-course entry for the course, if any |
| SubmitReview.OfferedTasks | client/src/pages/course/mentor/submit-review.tsx:61-63 | a task is offered iff a power admin, its task owner or a mentor may submit it |
| SubmitReview.OfferedTasksAppend | client/src/pages/course/mentor/submit-review.tsx:61-63 | the filter keeps the loaded order |
| SubmitReview.PowerMentorGetsTaskOwnerTasks | client/src/pages/course/mentor/submit-review.tsx:42-59 | admins and course managers are offered every task-owner-checked task |
| SubmitReview.PlainMentorOffer | client/src/pages/course/mentor/submit-review.tsx:41-57 | others are offered exactly the mentor-checked, manual, jury-free tasks with an end date, when they mentor the course |
| SubmitReview.OwnerGetsOwnTasks | client/src/pages/course/mentor/submit-review.tsx:50 | a task owner is offered its own task-owner-checked tasks |
| SubmitReview.IsTaskOwner | client/src/pages/course/mentor/submit-review.tsx:130-141 | owning a task needs course roles, a task-owner role and an entry for the course whose task ids include the task |
| SubmitReview.NoOwnerEntry | client/src/pages/course/mentor/submit-review.tsx:130-141 | without course roles, a task-owner role or a course entry, nobody owns a task |
| SubmitReview.FirstEntryOnly | client/src/pages/course/mentor/submit-review.tsx:137 | only the first entry for the course is consulted |
| SubmitReview.FindById | client/src/pages/course/mentor/submit-review.tsx:73 | `find` by id: the first task with the id; none iff no task has it |
| SubmitReview.MaxScore | client/src/pages/course/mentor/submit-review.tsx:73-74 | no task gives no maximum; a non-zero maximum is shown as it is, a null or zero maximum as 100 |
| SubmitReview.FindByCourseTaskId | client/src/pages/course/mentor/submit-review.tsx:155 | `find` by `courseTaskId`: the first task carrying it; none iff no task does |
| SubmitReview.TaskChangeAsWritten | client/src/pages/course/mentor/submit-review.tsx:153-160 | as written, every selected value is stored |
| SubmitReview.UnknownTaskStoredAsWritten | client/src/pages/course/mentor/submit-review.tsx:155-159 | a value no task carries is stored anyway |
| SubmitReview.TaskChange | client/src/pages/course/mentor/submit-review.tsx:153-160 | as intended, a value no task carries leaves the state alone |
| SubmitReview.TaskChangeKeepsSelectionValid | client/src/pages/course/mentor/submit-review.tsx:153-160 | with the intended guard, the stored selection always names a loaded task |
| SubmitReview.Submit | client/src/pages/course/mentor/submit-review.tsx:162-169 | a submit posts iff validation passed and none is in flight, and then marks loading |
| SubmitReview.NoDoubleSubmit | client/src/pages/course/mentor/submit-review.tsx:165-169 | a second submit while one is in flight posts nothing |
| Renderers.BoolText | client/src/components/Table/renderers.tsx:21-23 | `true`/`false` for a value, `''` for null or undefined |
| Renderers.Tags | client/src/components/Table/renderers.tsx:37-42 | `''` exactly for a non-array, otherwise one tag per value |
| Renderers.StringTrim | client/src/components/Table/renderers.tsx:52-54 | a cell over 20 UTF-16 code units becomes its first 20 code units plus `...`; null and any other cell are unchanged |
| Renderers.StringTrimBounded | client/src/components/Table/renderers.tsx:52-54 | the cell has at most 23 code units and keeps the first 20 of the text |
| Renderers.StringTrimOfBmpText | client/src/components/Table/renderers.tsx:52-54 | on text inside the Basic Multilingual Plane, the cell is cut iff the text has more than 20 characters, after the 20th |
| Renderers.StringTrimCountsUnits | client/src/components/Table/renderers.tsx:52-54 | a character outside the Basic Multilingual Plane counts as two code units, so eleven of them are already cut |
| Renderers.StringTrimIdempotent | client/src/components/Table/renderers.tsx:52-54 | trimming a trimmed cell changes nothing |
| Renderers.IdFromArray | client/src/components/Table/renderers.tsx:56-61 | the name of the first item with the id, `(Empty)` when none has it |
| Employer.CountBadges | client/src/pages/employer/index.tsx:35-45 | keys are the truthy ids in first-seen order; each count is the number of entries with that id |
| Employer.OccurrencesStep | client/src/pages/employer/index.tsx:38-42 | one more entry adds one to the count of its own id only |
| Employer.FirstSeenExact | client/src/pages/employer/index.tsx:38-42 | the keys are distinct and are exactly the non-empty ids that occur |
| Employer.SumOfCountsStep | client/src/pages/employer/index.tsx:38-42 | one more entry raises the sum of counts by one iff it is truthy and listed |
| Employer.CountsSumToTruthy | client/src/pages/employer/index.tsx:38-42 | the counts add up to the number of entries with a truthy id |
| Employer.AddZeroPadding | client/src/pages/employer/index.tsx:83 | two digits; `0` plus the digit below 10, the number itself for 10..99 |
| Employer.PaddingDigits | client/src/pages/employer/index.tsx:83 | the padding is the tens digit and the units digit |
| Employer.PaddingReadsBack | client/src/pages/employer/index.tsx:83 | the padded text reads back as the number modulo 100 |
| Employer.BelowHundredReadsBack | client/src/pages/employer/index.tsx:83 | a month or day number reads back unchanged from its padding |
| Employer.ExpiryText | client/src/pages/employer/index.tsx:84-89 | the expiry date is the year, then `-MM-DD`: the year, the padded month and the padded day read back from fixed places, six characters after the year |
| Employer.Status | client/src/pages/employer/index.tsx:147-169 | Expelled iff expelled; else with a certificate link iff a certificate; else Completed iff completed; else In progress |
| Employer.StatusPrecedence | client/src/pages/employer/index.tsx:155-169 | expulsion hides a certificate, a certificate hides completion, an empty certificate id counts as none |
| Employer.CourseTitle | client/src/pages/employer/index.tsx:146 | the title is the course's full name followed by the location name when there is one |
| Employer.Courses | client/src/pages/employer/index.tsx:129-197 | `No courses` iff the list is null; a thrown render iff some course has no mentor; otherwise one item per course with its name, title, status, mentor link and name, score and position |
| Employer.EmptyCourseListIsAList | client/src/pages/employer/index.tsx:130 | an empty course list is not `No courses` |
| Employer.Feedback | client/src/pages/employer/index.tsx:203-219 | `No public feedback yet` iff there are no entries; otherwise each counted badge with its count, in key order |
| Employer.FeedbackBadgesCounted | client/src/pages/employer/index.tsx:203-219 | every listed badge has a non-empty id, a count of at least one, and appears once |
| Employer.FalsyEntriesGiveEmptyList | client/src/pages/employer/index.tsx:204-206 | entries without a badge id give an empty list, not the no-feedback text |
| Employer.TableData | client/src/pages/employer/index.tsx:250-279 | null without users; otherwise one row per user keyed by its index, `Yes`/`No` for full time, upper-cased English level, and name, GitHub id, expiry, courses, feedback, desired position, location and start date copied |
| Employer.TableKeysDistinct | client/src/pages/employer/index.tsx:265-274 | row keys are distinct and the English level is already upper case |
| Text.Trim | server/src/services/courseService.ts:69 | `trim` gives the infix after the leading white space, followed only by white space, with no white space at either end |
| Text.FirstOccurrenceCorrect | client/src/pages/course/student/auto-test.tsx:356 | the first match of `answer-` has none before it; no match means no occurrence |
| Text.LexTotal | client/src/pages/course/schedule.tsx:109 | the code-point string order is total |
| Text.LexTransitive | client/src/pages/course/schedule.tsx:109 | the code-point string order is transitive |
| Text.ToUpper | client/src/pages/employer/index.tsx:274 | `toUpperCase` keeps the length and upper-cases each character |
| Text.UpperIdempotent | client/src/pages/employer/index.tsx:274 | upper-casing twice is upper-casing once |
| Text.NatToString | client/src/pages/course/schedule.tsx:140 | the decimal text has at least one digit, and one digit exactly below 10 |
| Text.NatToStringRoundTrip | client/src/pages/course/schedule.tsx:140 | the decimal text of a number reads back as that number |
| Text.NatToStringCanonical | server/src/routes/guards.ts:17-27 | a printed number has no leading zero, which is what makes it a property key |
| Text.CanonicalRoundTrip | server/src/routes/guards.ts:146-147 | a digit text without leading zero reads as the number that prints as it |

## Left out

- Floating point: scores, weights and totals are exact reals, so IEEE rounding of `t.score * weight` and of lodash `round` is not modelled.
- ScoreJob.RunScoreJob: uses one timestamp per course for `totalScoreChangeDate`, where the code calls `new Date()` per changed row.
- The cron trigger, the logger, `Date.now()` durations and the `Promise.all` concurrency of the loads are left out.
- The database and HTTP layers are parameters: `getStudentsScore`, `getCourseTasks`, the `save`, and every TypeORM query in `courseService.ts`. The saved state is modelled as the updates applied to the loaded students.
- Schedule.EarlierOrSame: `localeCompare` is modelled as code-point order, not locale collation.
- The moment-based date and time formatting (`dateRenderer`, `formatTime`, `timeRenderer`, the past-row class) is left out. Dates are opaque strings.
- AutoTest.NumberOf: `Number` is modelled for the empty text and for digit strings only. Every other text gives NaN, including white space, signs, decimals and hex.
- Guards.NumberCourse: `Number` is modelled for surrounding white space, an optional sign and decimal digits. A decimal, exponent or hex form that `Number` reads as an integer (`1.0`, `1e0`, `0x1`) is taken to name no course.
- Guards.NumberCourse: digit strings are read as exact integers. `Number` rounds those above 2^53 to the nearest double (`9007199254740993` gives `9007199254740992`), and from 10^21 on the number prints in exponent form (`1e+21`), so it names a different key. That rounding is not modelled; course ids are taken to be below 2^53.
- AutoTest.ShownQuestions: lodash `shuffle` is random, so the shuffle is a permutation passed in as a parameter.
- `sortTasksByEndDate` is not part of this model. The tasks are taken in their loaded order.
- Employer.CountBadges: JavaScript prototype keys such as `constructor` are not modelled. Neither is a non-string badge id such as `0`.
- Employer.CountBadges: `keys` is the insertion order. `Object.keys` lists integer-like ids (`"7"`) first, in ascending numeric order, and that reordering is not modelled.
- SubmitReview.IsTaskOwner: the `= []` default replaces only an absent `tasksIds`. A `null` one makes `.includes` throw, which is not modelled; None stands for the absent field.
- AutoTest.SubmitData: a None type stands for a JSON `null` type, which posts an empty body. An absent (`undefined`) type, which falls to `default` and posts nothing, is not modelled.
- AutoTest.AfterAnswerDash: `.` in the regular expression does not match line terminators. Keys that contain one are not modelled.
- Employer.TableData: `Number(expires)` is taken to be the number it is given.
- Employer.Courses: a thrown render stands for the whole column; which courses React had already drawn is not modelled.
- Schedule.TypeLabel: an event type that names an `Object.prototype` member, such as `constructor`, reads that member from the name table in the code; the model shows the raw type.
- The `heroesBadges` name and URL lookup is not part of this model.
- Employer.ExpiryText: the `Date` decomposition of the timestamp into year, month and day is not modelled. Negative years are not covered.
- CourseService.FullName: a template literal with a null first or last name (`"null"`) is not modelled.
- CourseService.MergedResults: a missing interview score is read as 0, which is what the destructuring default does for `undefined`. A `null` score, which the default leaves as `null`, is not told apart from a missing one.
- `isHirer` appears in the session but no guard uses it.
- Strings outside `stringTrimRenderer` are Dafny strings, which cannot hold a lone surrogate the way a JavaScript string can. The code-unit cells of `stringTrimRenderer` can hold one, as after a cut that splits a surrogate pair.
- Text.ToUpper: upper-cases ASCII letters only.
- The user-search filter `loadStudents` (regular-expression match) is left out, as is the React rendering.
- The submit's HTTP outcome and the form reset are left out.

## Findings

| source | as written | input that shows it | evidently intended | confidence | as-written member | corrected member |
|---|---|---|---|---|---|---|
| server/src/routes/guards.ts:13 | `userGuards` reads `user.coursesRoles` before `isLoggedIn` checks `user != null`, so a request without a session user throws | any guard, no user in the session | fall back to basic auth, as `isLoggedIn` is written to do | not executed | Guards.DecideAsWritten, Guards.AnonymousRequestThrows | Guards.Decide |
| client/src/pages/course/mentor/submit-review.tsx:155-156 | `courseTask === null` compares the result of `find`, which is a task or `undefined` and never `null`, so the guard never fires | a selected value that no loaded task has as `courseTaskId` (e.g. 999 with no tasks) | ignore a value that matches no task | not executed | SubmitReview.TaskChangeAsWritten, SubmitReview.UnknownTaskStoredAsWritten | SubmitReview.TaskChange, SubmitReview.TaskChangeKeepsSelectionValid |
