/**
 * The pure helpers of the student auto-test page
 * (client/src/pages/course/student/auto-test.tsx): which course tasks are
 * offered, what is posted for each task type, when a submit posts nothing,
 * and which self-education questions are shown.
 */
module AutoTest {
  import opened Wrappers
  import Text

  /**
   * A `studentEndDate` string together with what `new Date(text).getTime()`
   * yields for it (None for an unparsable date, i.e. NaN).
   */
  datatype EndDate = EndDate(text: string, millis: Option<int>)

  datatype Question = Question(text: string)

  datatype CourseTask = CourseTask(
    id: int,
    taskType: Option<string>,
    studentEndDate: Option<EndDate>,
    verification: string,
    checker: string,
    githubRepoName: Option<string>,
    sourceGithubRepoUrl: Option<string>,
    questions: Option<seq<Question>>,
    numberOfQuestions: Option<int>)

  // ---------------------------------------------------------------------------
  // filterAutoTestTasks

  predicate IsCodewars(t: CourseTask) {
    t.taskType == Some("codewars") || t.taskType == Some("codewars:stage1") || t.taskType == Some("codewars:stage2")
  }

  /** The end date is a non-empty string that parses to a moment after `now`. */
  predicate EndsAfter(t: CourseTask, now: int) {
    t.studentEndDate.Some? && t.studentEndDate.value.millis.Some? && t.studentEndDate.value.millis.value > now
  }

  /** The filter predicate of `filterAutoTestTasks`; `now` stands for `Date.now()`. */
  predicate Offered(t: CourseTask, now: int) {
    && t.studentEndDate.Some? && t.studentEndDate.value.text != ""
    && (EndsAfter(t, now) || IsCodewars(t))
    && (t.verification == "auto" || t.checker == "auto-test")
    && t.checker != "taskOwner"
    && t.taskType != Some("test")
  }

  function FilterAutoTestTasks(tasks: seq<CourseTask>, now: int): (r: seq<CourseTask>)
    ensures |r| <= |tasks|
    ensures forall t :: t in r <==> t in tasks && Offered(t, now)
  {
    if tasks == [] then []
    else (if Offered(tasks[0], now) then [tasks[0]] else []) + FilterAutoTestTasks(tasks[1..], now)
  }

  /** The filter keeps input order: it distributes over concatenation. */
  lemma {:induction false} FilterAppend(a: seq<CourseTask>, b: seq<CourseTask>, now: int)
    ensures FilterAutoTestTasks(a + b, now) == FilterAutoTestTasks(a, now) + FilterAutoTestTasks(b, now)
  {
    if a != [] {
      assert (a + b)[1..] == a[1..] + b;
      FilterAppend(a[1..], b, now);
    } else {
      assert a + b == b;
    }
  }

  /** A codewars task is offered whatever its end date, once it has one; any other task only before it. */
  lemma CodewarsExemptFromDate(t: CourseTask, now: int)
    requires t.studentEndDate.Some? && t.studentEndDate.value.text != ""
    requires t.verification == "auto" && t.checker != "taskOwner"
    ensures IsCodewars(t) ==> Offered(t, now)
    ensures !IsCodewars(t) ==> (Offered(t, now) <==> EndsAfter(t, now) && t.taskType != Some("test"))
  {
  }

  // ---------------------------------------------------------------------------
  // getSubmitData

  /** What `Number(text)` yields for the index text (NaN when there is none). */
  datatype AnswerIndex = Index(n: nat) | NotANumber

  datatype Answer = Answer(index: AnswerIndex, value: string)

  datatype Payload =
    | SelfEducation(answers: seq<Answer>)
    | Codewars(account: string, deadline: Option<string>, variant: Option<string>)
    | Repository(githubRepoName: Option<string>, sourceGithubRepoUrl: Option<string>)
    | NoFields

  /** `Number(text)` for the texts it reads as non-negative integers: "" is 0, a run of digits its value. */
  function NumberOf(text: string): (r: AnswerIndex)
    ensures text == "" ==> r == Index(0)
    ensures r.Index? <==> Text.AllDigits(text)
    ensures r.Index? && text != "" ==> Text.ParseDigits(text) == r.n
  {
    if Text.AllDigits(text) then Index(Text.ParseDigits(text)) else NotANumber
  }

  /**
   * The capture of `/answer-(.*)$/`: the text after the first `answer-` of a
   * key, or None when the key has no `answer-`.
   */
  function AfterAnswerDash(key: string): (r: Option<string>)
    ensures r.None? <==> forall j: nat :: !Text.OccursAt(key, "answer-", j)
    ensures r.Some? ==> exists i: nat :: && Text.OccursAt(key, "answer-", i)
                                         && (forall j: nat :: j < i ==> !Text.OccursAt(key, "answer-", j))
                                         && r.value == key[i + 7..]
  {
    Text.FirstOccurrenceCorrect(key, "answer-");
    match Text.FirstOccurrence(key, "answer-")
    case None => None
    case Some(i) => Some(key[i + 7..])
  }

  /** `/answer/.test(key)`: the entry belongs to the self-education answers. */
  predicate IsAnswerKey(key: string) {
    Text.Contains(key, "answer")
  }

  /** The answer one form entry gives: `Number` of the capture as its index (NaN without one), and the entry's value. */
  function AnswerOf(key: string, value: string): Answer {
    var raw := AfterAnswerDash(key);
    Answer(if raw.Some? then NumberOf(raw.value) else NotANumber, value)
  }

  /** `/answer/.test(key)` on an entry of the form values. */
  predicate IsAnswerEntry(e: (string, string)) {
    IsAnswerKey(e.0)
  }

  /** `xs.filter(keep)`: the elements `keep` accepts, in order. */
  function Kept<T>(xs: seq<T>, keep: T -> bool): (r: seq<T>)
    ensures |r| <= |xs|
  {
    if xs == [] then []
    else (if keep(xs[0]) then [xs[0]] else []) + Kept(xs[1..], keep)
  }

  /** `Object.entries(values).filter(([key]) => /answer/.test(key))`: the `answer` entries, in order. */
  function AnswerEntries(entries: seq<(string, string)>): (r: seq<(string, string)>)
    ensures |r| <= |entries|
  {
    Kept(entries, IsAnswerEntry)
  }

  /** The self-education payload: the `answer` entries mapped to their answers. */
  function Answers(entries: seq<(string, string)>): (r: seq<Answer>)
    ensures |r| <= |entries|
  {
    var kept := AnswerEntries(entries);
    seq(|kept|, k requires 0 <= k < |kept| => AnswerOf(kept[k].0, kept[k].1))
  }

  /** The value under `key`, the first entry carrying it. */
  function FormValue(entries: seq<(string, string)>, key: string): (r: Option<string>)
    ensures r.None? <==> forall j :: 0 <= j < |entries| ==> entries[j].0 != key
    ensures r.Some? ==> exists j :: 0 <= j < |entries| && entries[j] == (key, r.value)
                                    && forall i :: 0 <= i < j ==> entries[i].0 != key
  {
    if entries == [] then None
    else if entries[0].0 == key then Some(entries[0].1)
    else FormValue(entries[1..], key)
  }

  /** `type.split(':')[1]`: the text between the first and the second colon, if there is a colon. */
  function SecondSegment(s: string): (r: Option<string>)
    ensures r.None? <==> ':' !in s
    decreases |s|
  {
    if s == [] then None
    else if s[0] == ':' then Some(FirstSegment(s[1..]))
    else SecondSegment(s[1..])
  }

  /** The text before the first colon, or the whole text when it has none. */
  function FirstSegment(s: string): (r: string)
    ensures |r| <= |s| && r == s[..|r|]
    ensures ':' !in r
    ensures |r| < |s| ==> s[|r|] == ':'
  {
    if s == [] || s[0] == ':' then [] else [s[0]] + FirstSegment(s[1..])
  }

  /**
   * `getSubmitData`: the request body for a task, or None (`null`) when the
   * codewars account is missing or the type is not one the page submits.
   */
  function SubmitData(t: CourseTask, entries: seq<(string, string)>): (r: Option<Payload>)
    ensures t.taskType == Some("selfeducation") ==> r == Some(SelfEducation(Answers(entries)))
    ensures IsCodewars(t) ==>
              (r.None? <==> FormValue(entries, "codewars").None? || FormValue(entries, "codewars") == Some(""))
    ensures r.Some? && r.value.Codewars? ==>
              && IsCodewars(t) && r.value.account != ""
              && Some(r.value.account) == FormValue(entries, "codewars")
              && r.value.deadline == (if t.studentEndDate.Some? then Some(t.studentEndDate.value.text) else None)
    ensures t.taskType == Some("jstask") || t.taskType == Some("kotlintask") || t.taskType == Some("objctask") ==>
              r == Some(Repository(t.githubRepoName, t.sourceGithubRepoUrl))
    ensures t.taskType.None? || t.taskType == Some("cv:markdown") || t.taskType == Some("cv:html") ==> r == Some(NoFields)
  {
    match t.taskType
    case None => Some(NoFields)
    case Some(kind) =>
      if kind == "selfeducation" then Some(SelfEducation(Answers(entries)))
      else if kind == "codewars" || kind == "codewars:stage1" || kind == "codewars:stage2" then
        var account := FormValue(entries, "codewars");
        if account.None? || account.value == "" then None
        else
          Some(Codewars(account.value,
                        if t.studentEndDate.Some? then Some(t.studentEndDate.value.text) else None,
                        if kind != "codewars" then SecondSegment(kind) else None))
      else if kind == "jstask" || kind == "kotlintask" || kind == "objctask" then
        Some(Repository(t.githubRepoName, t.sourceGithubRepoUrl))
      else if kind == "cv:markdown" || kind == "cv:html" then Some(NoFields)
      else None
  }

  /** The codewars variant is the stage name for the staged types and absent for plain `codewars`. */
  lemma CodewarsVariant(t: CourseTask, entries: seq<(string, string)>)
    requires FormValue(entries, "codewars").Some? && FormValue(entries, "codewars").value != ""
    ensures IsCodewars(t) ==> SubmitData(t, entries).Some? && SubmitData(t, entries).value.Codewars?
    ensures var r := SubmitData(t, entries);
            t.taskType == Some("codewars:stage1") ==> r.Some? && r.value.Codewars? && r.value.variant == Some("stage1")
    ensures var r := SubmitData(t, entries);
            t.taskType == Some("codewars:stage2") ==> r.Some? && r.value.Codewars? && r.value.variant == Some("stage2")
    ensures var r := SubmitData(t, entries);
            t.taskType == Some("codewars") ==> r.Some? && r.value.Codewars? && r.value.variant == None
  {
    if IsCodewars(t) {
      VariantOf(t, entries);
      StageTexts();
    }
  }

  /** The two staged type names split into `codewars` and their stage. */
  lemma StageTexts()
    ensures SecondSegment("codewars:stage1") == Some("stage1") && "codewars:stage1" != "codewars"
    ensures SecondSegment("codewars:stage2") == Some("stage2") && "codewars:stage2" != "codewars"
  {
    assert "codewars:stage1" == "codewars:" + "stage1";
    assert "codewars:stage2" == "codewars:" + "stage2";
    StageText("stage1");
    StageText("stage2");
  }

  /** One staged type name splits into `codewars` and its stage. */
  lemma StageText(stage: string)
    requires stage == "stage1" || stage == "stage2"
    ensures SecondSegment("codewars:" + stage) == Some(stage) && "codewars:" + stage != "codewars"
  {
    assert ':' !in stage;
    StageVariant(stage);
    assert |"codewars:" + stage| == 15;
  }

  /** `split(':')[1]` of `codewars:` followed by a stage name is the stage name. */
  lemma StageVariant(stage: string)
    requires ':' !in stage
    ensures SecondSegment("codewars:" + stage) == Some(stage)
  {
    assert "codewars:" + stage == "codewars" + ":" + stage;
    SegmentAfterPrefix("codewars", stage);
  }

  /** A codewars payload carries `split(':')[1]` of the type as its variant, except for plain `codewars`. */
  lemma VariantOf(t: CourseTask, entries: seq<(string, string)>)
    requires IsCodewars(t)
    requires FormValue(entries, "codewars").Some? && FormValue(entries, "codewars").value != ""
    ensures SubmitData(t, entries).Some? && SubmitData(t, entries).value.Codewars?
    ensures var kind := t.taskType.value;
            SubmitData(t, entries).value.variant == if kind != "codewars" then SecondSegment(kind) else None
  {
  }

  /** With a colon at `i` and none before it, `split(':')[1]` is the segment that follows position `i`. */
  lemma {:induction false} SecondSegmentAt(s: string, i: nat)
    requires i < |s| && s[i] == ':' && ':' !in s[..i]
    ensures SecondSegment(s) == Some(FirstSegment(s[i + 1..]))
    decreases i
  {
    if i > 0 {
      assert s[0] == s[..i][0];
      assert s[1..][..i - 1] == s[..i][1..];
      assert s[1..][i - 1 + 1..] == s[i + 1..];
      SecondSegmentAt(s[1..], i - 1);
    }
  }

  lemma {:induction false} SegmentAfterPrefix(prefix: string, stage: string)
    requires ':' !in prefix && ':' !in stage
    ensures SecondSegment(prefix + ":" + stage) == Some(stage)
  {
    if prefix == [] {
      assert (prefix + ":" + stage)[1..] == stage;
      assert FirstSegment(stage) == stage by {
        FirstSegmentWhole(stage);
      }
    } else {
      assert (prefix + ":" + stage)[1..] == prefix[1..] + ":" + stage;
      SegmentAfterPrefix(prefix[1..], stage);
    }
  }

  lemma {:induction false} FirstSegmentWhole(s: string)
    requires ':' !in s
    ensures FirstSegment(s) == s
  {
    if s != [] {
      FirstSegmentWhole(s[1..]);
    }
  }

  /** Any other task type gets no payload. */
  lemma UnknownTypeNoPayload(t: CourseTask, entries: seq<(string, string)>)
    requires t.taskType.Some?
    requires t.taskType.value !in {"selfeducation", "codewars", "codewars:stage1", "codewars:stage2",
                                   "jstask", "kotlintask", "objctask", "cv:markdown", "cv:html"}
    ensures SubmitData(t, entries).None?
  {
  }

  /**
   * Every entry whose key contains `answer` gives exactly one answer, in entry
   * order, and no other entry gives one: the answers are those of the entries
   * at the increasing positions `pos`, and these are all the `answer` entries.
   */
  lemma AnswersExact(entries: seq<(string, string)>) returns (pos: seq<nat>)
    ensures |pos| == |Answers(entries)|
    ensures forall k :: 0 <= k < |pos| ==> && pos[k] < |entries| && IsAnswerKey(entries[pos[k]].0)
                                           && Answers(entries)[k] == AnswerOf(entries[pos[k]].0, entries[pos[k]].1)
    ensures forall k, l :: 0 <= k < l < |pos| ==> pos[k] < pos[l]
    ensures forall j :: 0 <= j < |entries| && IsAnswerKey(entries[j].0) ==> j in pos
  {
    pos := KeptAt(entries, IsAnswerEntry);
    KeptAtElements(entries, IsAnswerEntry);
    KeptAtIncreasing(entries, IsAnswerEntry);
    KeptAtComplete(entries, IsAnswerEntry);
  }

  /** The positions of the elements `keep` accepts, in increasing order. */
  function KeptAt<T>(xs: seq<T>, keep: T -> bool): seq<nat> {
    if xs == [] then []
    else
      var rest := KeptAt(xs[1..], keep);
      (if keep(xs[0]) then [0] else []) + seq(|rest|, k requires 0 <= k < |rest| => rest[k] + 1)
  }

  /** `KeptAt(xs, keep)` lists a position for every kept element, and each kept element sits at its position. */
  lemma {:induction false} KeptAtElements<T>(xs: seq<T>, keep: T -> bool)
    ensures |KeptAt(xs, keep)| == |Kept(xs, keep)|
    ensures forall k :: 0 <= k < |KeptAt(xs, keep)| ==>
              var p := KeptAt(xs, keep)[k];
              p < |xs| && keep(xs[p]) && Kept(xs, keep)[k] == xs[p]
  {
    if xs != [] {
      var tail := xs[1..];
      KeptAtElements(tail, keep);
      var rest, restKept := KeptAt(tail, keep), Kept(tail, keep);
      var shifted := seq(|rest|, k requires 0 <= k < |rest| => rest[k] + 1);
      var front: seq<nat> := if keep(xs[0]) then [0] else [];
      var head := if keep(xs[0]) then [xs[0]] else [];
      var pos, kept := KeptAt(xs, keep), Kept(xs, keep);
      assert pos == front + shifted;
      assert kept == head + restKept;
      forall k | 0 <= k < |pos|
        ensures pos[k] < |xs| && keep(xs[pos[k]]) && kept[k] == xs[pos[k]]
      {
        if k >= |front| {
          var i := k - |front|;
          assert pos[k] == rest[i] + 1 && kept[k] == restKept[i];
          assert xs[rest[i] + 1] == tail[rest[i]];
        }
      }
    }
  }

  /** The positions increase strictly. */
  lemma {:induction false} KeptAtIncreasing<T>(xs: seq<T>, keep: T -> bool)
    ensures forall k, l :: 0 <= k < l < |KeptAt(xs, keep)| ==> KeptAt(xs, keep)[k] < KeptAt(xs, keep)[l]
  {
    if xs != [] {
      var tail := xs[1..];
      KeptAtIncreasing(tail, keep);
      var h := if keep(xs[0]) then 1 else 0;
      forall k | h <= k < |KeptAt(xs, keep)|
        ensures KeptAt(xs, keep)[k] == KeptAt(tail, keep)[k - h] + 1
      {
      }
    }
  }

  /** Every position `keep` accepts is listed. */
  lemma {:induction false} KeptAtComplete<T>(xs: seq<T>, keep: T -> bool)
    ensures forall j :: 0 <= j < |xs| && keep(xs[j]) ==> j in KeptAt(xs, keep)
  {
    if xs != [] {
      var tail := xs[1..];
      var rest := KeptAt(tail, keep);
      KeptAtComplete(tail, keep);
      var shifted := seq(|rest|, k requires 0 <= k < |rest| => rest[k] + 1);
      var front: seq<nat> := if keep(xs[0]) then [0] else [];
      var pos := KeptAt(xs, keep);
      assert pos == front + shifted;
      forall j | 0 <= j < |xs| && keep(xs[j])
        ensures j in pos
      {
        if j == 0 {
          assert pos[0] == 0;
        } else {
          assert tail[j - 1] == xs[j];
          assert j - 1 in rest;
          var k :| 0 <= k < |rest| && rest[k] == j - 1;
          assert pos[|front| + k] == shifted[k];
        }
      }
    }
  }

  /** The key `answer-` followed by digits gives the digits' value as its index, and the entry's value. */
  lemma AnswerOfDigits(d: string, value: string)
    requires Text.AllDigits(d)
    ensures Answers([("answer-" + d, value)]) == [Answer(Index(Text.ParseDigits(d)), value)]
  {
    var key := "answer-" + d;
    assert Text.StartsWith(key, "answer-");
    assert Text.StartsWith(key, "answer");
    assert key[7..] == d;
    assert AfterAnswerDash(key) == Some(d);
    assert [(key, value)][1..] == [];
  }

  // ---------------------------------------------------------------------------
  // handleSubmit

  datatype SubmitAction = Ignored | Post(courseTaskId: int, payload: Payload)

  /** `courseTasks.find(t => t.id === courseTaskId)`: the first task with that id. */
  function FindTask(tasks: seq<CourseTask>, id: int): (r: Option<CourseTask>)
    ensures r.Some? ==> exists k :: 0 <= k < |tasks| && tasks[k] == r.value && r.value.id == id
                                   && forall j :: 0 <= j < k ==> tasks[j].id != id
    ensures r.None? <==> forall t :: t in tasks ==> t.id != id
  {
    if tasks == [] then None
    else if tasks[0].id == id then Some(tasks[0])
    else
      var r := FindTask(tasks[1..], id);
      assert forall k :: 1 <= k < |tasks| ==> tasks[k] == tasks[1..][k - 1];
      r
  }

  /** `handleSubmit` up to the request: an unknown task or a null payload posts nothing. */
  function HandleSubmit(tasks: seq<CourseTask>, courseTaskId: int, entries: seq<(string, string)>): (a: SubmitAction)
    ensures a.Post? ==> a.courseTaskId == courseTaskId
                        && FindTask(tasks, courseTaskId).Some?
                        && SubmitData(FindTask(tasks, courseTaskId).value, entries) == Some(a.payload)
    ensures a == Ignored <==> (FindTask(tasks, courseTaskId).None?
                               || SubmitData(FindTask(tasks, courseTaskId).value, entries).None?)
  {
    match FindTask(tasks, courseTaskId)
    case None => Ignored
    case Some(t) =>
      match SubmitData(t, entries)
      case None => Ignored
      case Some(data) => Post(courseTaskId, data)
  }

  // ---------------------------------------------------------------------------
  // The self-education questions shown

  datatype IndexedQuestion = IndexedQuestion(question: Question, index: nat)

  /** `order` is a rearrangement of the positions 0..n-1, the shuffle's outcome. */
  predicate IsShuffleOf(order: seq<nat>, n: nat) {
    |order| == n && (forall k :: 0 <= k < n ==> order[k] < n)
    && (forall k, l :: 0 <= k < l < n ==> order[k] != order[l])
  }

  /** `slice(0, end)`: how many items a list of `len` keeps. */
  function SliceLength(len: nat, end: Option<int>): (r: nat)
    ensures r <= len
    ensures end.None? ==> r == len
    ensures end.Some? && 0 <= end.value ==> r == if end.value < len then end.value else len
    ensures end.Some? && end.value < 0 ==> r == if len + end.value < 0 then 0 else len + end.value
  {
    match end
    case None => len
    case Some(e) =>
      if e < 0 then (if len + e < 0 then 0 else len + e)
      else if e < len then e else len
  }

  /**
   * The questions of a self-education task as shown: tagged with their
   * original position, shuffled by `order`, cut to `numberOfQuestions`.
   */
  function ShownQuestions(questions: Option<seq<Question>>, numberOfQuestions: Option<int>, order: seq<nat>): (r: seq<IndexedQuestion>)
    requires IsShuffleOf(order, |questions.GetOr([])|)
    ensures |r| == SliceLength(|questions.GetOr([])|, numberOfQuestions)
    ensures forall k :: 0 <= k < |r| ==>
              r[k].index < |questions.GetOr([])| && r[k].question == questions.GetOr([])[r[k].index]
    ensures forall k, l :: 0 <= k < l < |r| ==> r[k].index != r[l].index
  {
    var qs := questions.GetOr([]);
    var shuffled := seq(|qs|, k requires 0 <= k < |qs| => IndexedQuestion(qs[order[k]], order[k]));
    shuffled[..SliceLength(|qs|, numberOfQuestions)]
  }

  /** With a non-negative `numberOfQuestions`, min(numberOfQuestions, total) questions are shown; without one, all. */
  lemma ShownCount(questions: seq<Question>, numberOfQuestions: Option<int>, order: seq<nat>)
    requires IsShuffleOf(order, |questions|)
    requires numberOfQuestions.None? || numberOfQuestions.value >= 0
    ensures var shown := ShownQuestions(Some(questions), numberOfQuestions, order);
            numberOfQuestions.None? ==> |shown| == |questions|
    ensures var shown := ShownQuestions(Some(questions), numberOfQuestions, order);
            numberOfQuestions.Some? ==> |shown| == if numberOfQuestions.value < |questions| then numberOfQuestions.value else |questions|
  {
  }

  /** The page only reshapes self-education tasks; any other selected task is shown as it is. */
  function SelectedTask(tasks: seq<CourseTask>, id: int, order: seq<nat>): (r: Option<(CourseTask, Option<seq<IndexedQuestion>>)>)
    requires var t := FindTask(tasks, id);
             t.Some? ==> IsShuffleOf(order, |t.value.questions.GetOr([])|)
    ensures r.None? <==> FindTask(tasks, id).None?
    ensures r.Some? ==> r.value.0 == FindTask(tasks, id).value
                        && (r.value.1.Some? <==> r.value.0.taskType == Some("selfeducation"))
  {
    match FindTask(tasks, id)
    case None => None
    case Some(t) =>
      if t.taskType == Some("selfeducation")
      then Some((t, Some(ShownQuestions(t.questions, t.numberOfQuestions, order))))
      else Some((t, None))
  }
}
