/**
 * The course schedule page (client/src/pages/course/schedule.tsx): course
 * tasks are expanded into schedule rows, appended to the course events and
 * sorted by date; each row gets a table key and a type label.
 */
module Schedule {
  import opened Wrappers
  import Text
  import Sorting

  /** A date as the renderers print it: `dateRenderer` and `formatTime` outputs, taken as given. */
  datatype Moment = Moment(date: string, time: string)

  datatype ScheduleTask = ScheduleTask(
    id: nat,
    taskType: string,
    name: string,
    descriptionUrl: Option<string>,
    studentStartDate: Option<Moment>,
    studentEndDate: Option<Moment>)

  /** A row of the schedule table (a `CourseEvent`, or one made from a task). */
  datatype Row = Row(id: nat, date: string, time: string, eventType: string, name: string, descriptionUrl: Option<string>)

  /** A missing date gives an empty date and an empty time. */
  function RowAt(t: ScheduleTask, at: Option<Moment>, eventType: string): Row {
    Row(t.id, if at.Some? then at.value.date else "", if at.Some? then at.value.time else "",
        eventType, t.name, t.descriptionUrl)
  }

  /** The start row of a non-test task, typed with the task's own type. */
  function StartRow(t: ScheduleTask): Row {
    RowAt(t, t.studentStartDate, t.taskType)
  }

  /** The end row: `test` for a test task, `deadline` otherwise. */
  function EndRow(t: ScheduleTask): Row {
    RowAt(t, t.studentEndDate, if t.taskType == "test" then "test" else "deadline")
  }

  /** The rows one task contributes, in push order. */
  function TaskRows(t: ScheduleTask): (r: seq<Row>)
    ensures t.taskType == "test" ==> r == [EndRow(t)] && r[0].eventType == "test"
    ensures t.taskType != "test" ==> r == [StartRow(t), EndRow(t)] && r[1].eventType == "deadline"
  {
    if t.taskType != "test" then [StartRow(t), EndRow(t)] else [EndRow(t)]
  }

  /** What the `reduce` accumulates over a prefix of the tasks. */
  function Expanded(tasks: seq<ScheduleTask>): seq<Row> {
    if tasks == [] then [] else Expanded(tasks[..|tasks| - 1]) + TaskRows(tasks[|tasks| - 1])
  }

  /** The `reduce` with `acc.push`: rows are appended in place, task by task. */
  method ExpandTasks(tasks: seq<ScheduleTask>) returns (acc: seq<Row>)
    ensures acc == Expanded(tasks)
  {
    acc := [];
    var i := 0;
    while i < |tasks|
      invariant 0 <= i <= |tasks|
      invariant acc == Expanded(tasks[..i])
    {
      var task := tasks[i];
      ghost var before := acc;
      if task.taskType != "test" {
        acc := acc + [StartRow(task)];
      }
      acc := acc + [EndRow(task)];
      assert acc == before + TaskRows(task);
      ExpandedSplit(tasks, i);
      i := i + 1;
    }
    assert tasks[..i] == tasks;
  }

  function TestCount(tasks: seq<ScheduleTask>): nat {
    if tasks == [] then 0 else TestCount(tasks[..|tasks| - 1]) + (if tasks[|tasks| - 1].taskType == "test" then 1 else 0)
  }

  /** Every non-test task gives two rows and every test task one. */
  lemma {:induction false} ExpandedLength(tasks: seq<ScheduleTask>)
    ensures |Expanded(tasks)| == 2 * (|tasks| - TestCount(tasks)) + TestCount(tasks)
    ensures TestCount(tasks) <= |tasks|
  {
    if tasks != [] {
      ExpandedLength(tasks[..|tasks| - 1]);
    }
  }

  /** `(a, b) => a.date.localeCompare(b.date)`, read as code-point order. */
  function EarlierOrSame(a: Row, b: Row): bool {
    Text.LexLessEq(a.date, b.date)
  }

  lemma EarlierOrSameIsTotalPreorder()
    ensures Sorting.TotalPreorder(EarlierOrSame)
  {
    forall x: Row, y: Row ensures EarlierOrSame(x, y) || EarlierOrSame(y, x) {
      Text.LexTotal(x.date, y.date);
    }
    forall x: Row, y: Row, z: Row | EarlierOrSame(x, y) && EarlierOrSame(y, z) ensures EarlierOrSame(x, z) {
      Text.LexTransitive(x.date, y.date, z.date);
    }
  }

  /** The page's `data`: events, then task rows, stably sorted by date. */
  method LoadSchedule(events: seq<Row>, tasks: seq<ScheduleTask>) returns (data: seq<Row>)
    ensures data == Sorting.SortBy(events + Expanded(tasks), EarlierOrSame)
  {
    var taskRows := ExpandTasks(tasks);
    data := Sorting.SortBy(events + taskRows, EarlierOrSame);
  }

  /**
   * The schedule holds exactly the events and the task rows,
   * events + 2 x non-test tasks + test tasks of them, in ascending date order.
   */
  lemma ScheduleShape(events: seq<Row>, tasks: seq<ScheduleTask>)
    ensures var data := Sorting.SortBy(events + Expanded(tasks), EarlierOrSame);
            && multiset(data) == multiset(events) + multiset(Expanded(tasks))
            && |data| == |events| + 2 * (|tasks| - TestCount(tasks)) + TestCount(tasks)
            && Sorting.SortedBy(data, EarlierOrSame)
  {
    ExpandedLength(tasks);
    EarlierOrSameIsTotalPreorder();
    Sorting.SortedBySort(events + Expanded(tasks), EarlierOrSame);
  }

  /** Each task's rows appear in the expansion, right after those of the tasks before it. */
  lemma ExpandedSplit(tasks: seq<ScheduleTask>, k: nat)
    requires k < |tasks|
    ensures Expanded(tasks[..k + 1]) == Expanded(tasks[..k]) + TaskRows(tasks[k])
  {
    assert tasks[..k + 1][..k] == tasks[..k];
  }

  // ---------------------------------------------------------------------------
  // Row keys and labels

  /** `rowKey`: deadline rows are keyed by id followed by `d`, all others by id. */
  function RowKey(r: Row): (key: string)
    ensures |key| >= 1
    ensures r.eventType == "deadline" ==> key[|key| - 1] == 'd'
    ensures r.eventType != "deadline" ==> Text.AllDigits(key)
    ensures var digits := if r.eventType == "deadline" then key[..|key| - 1] else key;
            Text.AllDigits(digits) && Text.ParseDigits(digits) == r.id
  {
    var digits := Text.NatToString(r.id);
    Text.NatToStringRoundTrip(r.id);
    if r.eventType == "deadline" then
      assert (digits + "d")[..|digits|] == digits;
      digits + "d"
    else digits
  }

  /** A non-test task's start and deadline rows get different keys, unless the task's own type is `deadline`. */
  lemma StartAndDeadlineKeysDiffer(t: ScheduleTask)
    requires t.taskType != "test" && t.taskType != "deadline"
    ensures RowKey(StartRow(t)) != RowKey(EndRow(t))
  {
    var k := RowKey(EndRow(t));
    assert k[|k| - 1] == 'd';
  }

  /** A task of type `deadline` is the exception: both its rows are keyed `<id>d`. */
  lemma DeadlineTypedTaskKeysClash(t: ScheduleTask)
    requires t.taskType == "deadline"
    ensures RowKey(StartRow(t)) == RowKey(EndRow(t))
  {
  }

  /** `EventTypeToName` */
  const EventTypeToName: map<string, string> := map[
    "lecture_online" := "online lecture",
    "lecture_offline" := "offline lecture",
    "lecture_mixed" := "mixed lecture",
    "lecture_self_study" := "self study",
    "warmup" := "warm-up",
    "jstask" := "js task",
    "htmltask" := "html task",
    "codejam" := "code jam",
    "externaltask" := "external task"]

  /** The label in the Type column: the mapped name, or the raw type when there is none. */
  function TypeLabel(eventType: string): (shown: string)
    ensures eventType in EventTypeToName ==> shown == EventTypeToName[eventType]
    ensures eventType !in EventTypeToName ==> shown == eventType
  {
    if eventType in EventTypeToName && EventTypeToName[eventType] != "" then EventTypeToName[eventType] else eventType
  }
}
