/**
 * The nightly score and rank recomputation run by `startBackgroundJobs`
 * (server/src/schedule.ts): per course, weight every task result, round the
 * weighted sum to one decimal, sort the students by descending total, give
 * position i the rank i + 1 and keep only the students whose score or rank
 * moved.
 *
 * Scores are exact `real`s; the source works on IEEE doubles.
 */
module ScoreJob {
  import opened Wrappers
  import Sorting

  type Timestamp = int

  datatype TaskResult = TaskResult(courseTaskId: int, score: real)

  /** A course task as loaded; `scoreWeight` is a nullable column (default 1). */
  datatype CourseTask = CourseTask(id: int, scoreWeight: Option<real>)

  /** A row of `getStudentsScore(courseId).content`. */
  datatype StudentScore = StudentScore(
    id: int,
    rank: int,
    taskResults: seq<TaskResult>,
    totalScore: real,
    totalScoreChangeDate: Option<Timestamp>)

  /** The intermediate record of the pipeline, with its `changed` flag. */
  datatype ScoredRow = ScoredRow(
    id: int,
    rank: int,
    changed: bool,
    totalScore: real,
    totalScoreChangeDate: Option<Timestamp>)

  /** What is handed to `updateScoreStudents`: the row without `changed`. */
  datatype ScoreUpdate = ScoreUpdate(
    id: int,
    rank: int,
    totalScore: real,
    totalScoreChangeDate: Option<Timestamp>)

  type WeightMap = map<int, Option<real>>

  // ---------------------------------------------------------------------------
  // Weights and totals

  /** `mapValues(keyBy(courseTasks, 'id'), 'scoreWeight')`: a later task with the same id overrides an earlier one. */
  function WeightsOf(tasks: seq<CourseTask>): WeightMap {
    if tasks == [] then map[]
    else WeightsOf(tasks[..|tasks| - 1])[tasks[|tasks| - 1].id := tasks[|tasks| - 1].scoreWeight]
  }

  /** `weightMap[courseTaskId] ?? 1`: only a missing entry or a null weight falls back to 1. */
  function Weight(weights: WeightMap, courseTaskId: int): real {
    if courseTaskId in weights && weights[courseTaskId].Some? then weights[courseTaskId].value else 1.0
  }

  /** `sum(taskResults.map(t => t.score * weight))` */
  function WeightedSum(results: seq<TaskResult>, weights: WeightMap): real {
    if results == [] then 0.0
    else
      WeightedSum(results[..|results| - 1], weights)
      + results[|results| - 1].score * Weight(weights, results[|results| - 1].courseTaskId)
  }

  /**
   * lodash `round(x, 1)`: `Math.round(10x) / 10`, where `Math.round` rounds
   * halves up (towards +infinity).
   */
  function Round1(x: real): (r: real)
    ensures x - 0.05 < r <= x + 0.05
    ensures (10.0 * r).Floor as real == 10.0 * r
  {
    ((10.0 * x + 0.5).Floor as real) / 10.0
  }

  function NewTotal(row: StudentScore, weights: WeightMap): real {
    Round1(WeightedSum(row.taskResults, weights))
  }

  // ---------------------------------------------------------------------------
  // The pipeline: map, sort, rank, filter, strip

  /** The first `map`: new total, `changed` and the change date. */
  function Score(row: StudentScore, weights: WeightMap, now: Timestamp): ScoredRow {
    var total := NewTotal(row, weights);
    var scoreChanged := row.totalScore != total;
    ScoredRow(row.id, row.rank, scoreChanged, total,
              if scoreChanged then Some(now) else row.totalScoreChangeDate)
  }

  function ScoreAll(rows: seq<StudentScore>, weights: WeightMap, now: Timestamp): seq<ScoredRow> {
    seq(|rows|, i requires 0 <= i < |rows| => Score(rows[i], weights, now))
  }

  /** The comparator `(a, b) => b.totalScore - a.totalScore`: a may stay in front of b. */
  function HigherOrEqual(a: ScoredRow, b: ScoredRow): bool {
    a.totalScore >= b.totalScore
  }

  /** The second `map`: position i gets rank i + 1 and is dirty if the rank moved. */
  function AssignRanks(sorted: seq<ScoredRow>): (r: seq<ScoredRow>)
    ensures |r| == |sorted|
  {
    seq(|sorted|, i requires 0 <= i < |sorted| =>
      sorted[i].(rank := i + 1, changed := sorted[i].changed || sorted[i].rank != i + 1))
  }

  /** The whole course, ranked, before the dirty filter. */
  function Ranking(students: seq<StudentScore>, weights: WeightMap, now: Timestamp): seq<ScoredRow> {
    AssignRanks(Sorting.SortBy(ScoreAll(students, weights, now), HigherOrEqual))
  }

  function Strip(row: ScoredRow): ScoreUpdate {
    ScoreUpdate(row.id, row.rank, row.totalScore, row.totalScoreChangeDate)
  }

  /** `.filter(it => it.changed).map(({ changed, ...value }) => value)` */
  function Emit(rows: seq<ScoredRow>): (r: seq<ScoreUpdate>)
    ensures |r| <= |rows|
  {
    if rows == [] then []
    else (if rows[0].changed then [Strip(rows[0])] else []) + Emit(rows[1..])
  }

  /** The `scores` array of one course. */
  function ComputeUpdates(students: seq<StudentScore>, tasks: seq<CourseTask>, now: Timestamp): (r: seq<ScoreUpdate>)
    ensures |r| <= |students|
  {
    Emit(Ranking(students, WeightsOf(tasks), now))
  }

  // ---------------------------------------------------------------------------
  // Weights

  /** A task result whose task id is not among the course's tasks is weighted 1. */
  lemma {:induction false} UnknownTaskWeight(tasks: seq<CourseTask>, id: int)
    requires forall i :: 0 <= i < |tasks| ==> tasks[i].id != id
    ensures id !in WeightsOf(tasks)
    ensures Weight(WeightsOf(tasks), id) == 1.0
  {
    if tasks != [] {
      var n := |tasks| - 1;
      UnknownTaskWeight(tasks[..n], id);
    }
  }

  /** Otherwise its weight is that of the last task with that id, or 1 when that weight is null; a weight of 0 stays 0. */
  lemma {:induction false} KnownTaskWeight(tasks: seq<CourseTask>, id: int, i: nat)
    requires i < |tasks| && tasks[i].id == id
    requires forall j :: i < j < |tasks| ==> tasks[j].id != id
    ensures id in WeightsOf(tasks) && WeightsOf(tasks)[id] == tasks[i].scoreWeight
    ensures Weight(WeightsOf(tasks), id) == tasks[i].scoreWeight.GetOr(1.0)
  {
    var n := |tasks| - 1;
    if i < n {
      KnownTaskWeight(tasks[..n], id, i);
    }
  }

  /** A zero weight is kept (`??`, not `||`): such a task adds nothing to the total. */
  lemma ZeroWeightCounts(results: seq<TaskResult>, weights: WeightMap, r: TaskResult)
    requires r.courseTaskId in weights && weights[r.courseTaskId] == Some(0.0)
    ensures WeightedSum(results + [r], weights) == WeightedSum(results, weights)
  {
    assert (results + [r])[..|results|] == results;
  }

  /** Every task result contributes its score times its weight, wherever it stands. */
  lemma {:induction false} WeightedSumAppend(a: seq<TaskResult>, b: seq<TaskResult>, weights: WeightMap)
    ensures WeightedSum(a + b, weights) == WeightedSum(a, weights) + WeightedSum(b, weights)
  {
    if b != [] {
      var n := |b| - 1;
      WeightedSumAppend(a, b[..n], weights);
      assert (a + b)[..|a + b| - 1] == a + b[..n];
    } else {
      assert a + b == a;
    }
  }

  /** Rounding a rounded total changes nothing. */
  lemma Round1Idempotent(x: real)
    ensures Round1(Round1(x)) == Round1(x)
  {
    var k := (10.0 * x + 0.5).Floor;
    assert Round1(x) == k as real / 10.0;
    assert 10.0 * (k as real / 10.0) + 0.5 == k as real + 0.5;
    assert (k as real + 0.5).Floor == k;
  }

  // ---------------------------------------------------------------------------
  // Ranking

  function Ids(rows: seq<ScoredRow>): seq<int> {
    seq(|rows|, i requires 0 <= i < |rows| => rows[i].id)
  }

  function StudentIds(students: seq<StudentScore>): seq<int> {
    seq(|students|, i requires 0 <= i < |students| => students[i].id)
  }

  function RowId(row: ScoredRow): int { row.id }

  /** `r` is what the pipeline makes of `s` once `r.rank` is settled. */
  ghost predicate Describes(s: StudentScore, weights: WeightMap, now: Timestamp, r: ScoredRow) {
    && r.id == s.id
    && r.totalScore == NewTotal(s, weights)
    && r.changed == (s.totalScore != r.totalScore || s.rank != r.rank)
    && r.totalScoreChangeDate == (if s.totalScore != r.totalScore then Some(now) else s.totalScoreChangeDate)
  }

  lemma HigherOrEqualIsTotalPreorder()
    ensures Sorting.TotalPreorder(HigherOrEqual)
  {
  }

  lemma SortedScoresLength(rows: seq<ScoredRow>)
    ensures |Sorting.SortBy(rows, HigherOrEqual)| == |rows|
  {
    Sorting.SortedLength(rows, HigherOrEqual);
  }

  /**
   * Every student appears in the ranking exactly once, with its new total,
   * its rank, its dirty flag and its change date; the change date is reset
   * only when the total changed, not when only the rank moved.
   */
  lemma RankingRows(students: seq<StudentScore>, w: WeightMap, now: Timestamp)
    ensures |Ranking(students, w, now)| == |students|
    ensures multiset(Ids(Ranking(students, w, now))) == multiset(StudentIds(students))
    ensures forall i :: 0 <= i < |students| ==> Ranking(students, w, now)[i].rank == i + 1
    ensures forall i :: 0 <= i < |students| ==>
              exists p :: 0 <= p < |students| && Describes(students[p], w, now, Ranking(students, w, now)[i])
    ensures forall p :: 0 <= p < |students| ==>
              exists i :: 0 <= i < |students| && Describes(students[p], w, now, Ranking(students, w, now)[i])
  {
    var sc := ScoreAll(students, w, now);
    SortedScoresLength(sc);
    RankedRowsDescribed(students, w, now);
    StudentsRanked(students, w, now);
    RankingIds(students, w, now);
  }

  /** Position i of the ranking holds student p exactly when the sort put p's scored row at i. */
  lemma RankedRowDescribes(students: seq<StudentScore>, w: WeightMap, now: Timestamp, p: nat, i: nat)
    requires p < |students| && i < |Ranking(students, w, now)|
    requires Sorting.SortBy(ScoreAll(students, w, now), HigherOrEqual)[i] == ScoreAll(students, w, now)[p]
    ensures Describes(students[p], w, now, Ranking(students, w, now)[i])
  {
  }

  lemma RankedRowsDescribed(students: seq<StudentScore>, w: WeightMap, now: Timestamp)
    ensures forall i :: 0 <= i < |Ranking(students, w, now)| ==>
              exists p :: 0 <= p < |students| && Describes(students[p], w, now, Ranking(students, w, now)[i])
  {
    var sc := ScoreAll(students, w, now);
    var so := Sorting.SortBy(sc, HigherOrEqual);
    assert |Ranking(students, w, now)| == |so| && |sc| == |students|;
    forall i | 0 <= i < |Ranking(students, w, now)|
      ensures exists p :: 0 <= p < |students| && Describes(students[p], w, now, Ranking(students, w, now)[i])
    {
      var p := Sorting.PermutationIndex(so, sc, i);
      RankedRowDescribes(students, w, now, p, i);
      assert 0 <= p < |students| && Describes(students[p], w, now, Ranking(students, w, now)[i]);
    }
  }

  lemma StudentsRanked(students: seq<StudentScore>, w: WeightMap, now: Timestamp)
    ensures forall p :: 0 <= p < |students| ==>
              exists i :: 0 <= i < |Ranking(students, w, now)| && Describes(students[p], w, now, Ranking(students, w, now)[i])
  {
    var sc := ScoreAll(students, w, now);
    var so := Sorting.SortBy(sc, HigherOrEqual);
    forall p | 0 <= p < |students|
      ensures exists i :: 0 <= i < |Ranking(students, w, now)| && Describes(students[p], w, now, Ranking(students, w, now)[i])
    {
      var i := Sorting.PermutationIndex(sc, so, p);
      RankedRowDescribes(students, w, now, p, i);
    }
  }

  lemma RankingIds(students: seq<StudentScore>, w: WeightMap, now: Timestamp)
    ensures multiset(Ids(Ranking(students, w, now))) == multiset(StudentIds(students))
  {
    var sc := ScoreAll(students, w, now);
    Sorting.SortMapMultiset(sc, RowId, HigherOrEqual);
    RankedIds(Sorting.SortBy(sc, HigherOrEqual));
    ScoredIds(students, w, now);
  }

  lemma RankedIds(rows: seq<ScoredRow>)
    ensures Ids(AssignRanks(rows)) == Sorting.Map(rows, RowId)
  {
  }

  lemma ScoredIds(students: seq<StudentScore>, w: WeightMap, now: Timestamp)
    ensures Sorting.Map(ScoreAll(students, w, now), RowId) == StudentIds(students)
  {
  }

  /** The assigned ranks are exactly 1..N, each used once. */
  lemma RanksArePermutation(students: seq<StudentScore>, w: WeightMap, now: Timestamp)
    ensures |Ranking(students, w, now)| == |students|
    ensures forall i :: 0 <= i < |students| ==> 1 <= Ranking(students, w, now)[i].rank <= |students|
    ensures forall k {:trigger k in RankSet(Ranking(students, w, now))} :: 1 <= k <= |students| ==>
              k in RankSet(Ranking(students, w, now))
    ensures forall i, j :: 0 <= i < j < |students| ==>
              Ranking(students, w, now)[i].rank != Ranking(students, w, now)[j].rank
  {
    var R := Ranking(students, w, now);
    RankingRows(students, w, now);
    forall k | 1 <= k <= |students| ensures k in RankSet(R) {
      assert R[k - 1].rank == k;
    }
  }

  function RankSet(rows: seq<ScoredRow>): set<int> {
    set i | 0 <= i < |rows| :: rows[i].rank
  }

  /** A strictly higher total gets a strictly better (smaller) rank. */
  lemma RankMonotone(students: seq<StudentScore>, w: WeightMap, now: Timestamp)
    ensures forall i, j :: 0 <= i < |Ranking(students, w, now)| && 0 <= j < |Ranking(students, w, now)|
              && Ranking(students, w, now)[i].totalScore > Ranking(students, w, now)[j].totalScore
              ==> Ranking(students, w, now)[i].rank < Ranking(students, w, now)[j].rank
  {
    var so := Sorting.SortBy(ScoreAll(students, w, now), HigherOrEqual);
    assert Sorting.SortedBy(so, HigherOrEqual) by {
      HigherOrEqualIsTotalPreorder();
      Sorting.SortedBySort(ScoreAll(students, w, now), HigherOrEqual);
    }
    RanksFollowOrder(so);
  }

  lemma RanksFollowOrder(so: seq<ScoredRow>)
    requires Sorting.SortedBy(so, HigherOrEqual)
    ensures forall i, j :: 0 <= i < |AssignRanks(so)| && 0 <= j < |AssignRanks(so)|
              && AssignRanks(so)[i].totalScore > AssignRanks(so)[j].totalScore
              ==> AssignRanks(so)[i].rank < AssignRanks(so)[j].rank
  {
    var R := AssignRanks(so);
    forall i, j | 0 <= i < |R| && 0 <= j < |R| && R[i].totalScore > R[j].totalScore
      ensures R[i].rank < R[j].rank
    {
      if j <= i {
        assert false;
      }
    }
  }

  /** The ids of the rows whose total is `v`, in order. */
  function IdsWithTotal(rows: seq<ScoredRow>, v: real): seq<int> {
    if rows == [] then []
    else (if rows[0].totalScore == v then [rows[0].id] else []) + IdsWithTotal(rows[1..], v)
  }

  /** The ids of the students whose new total is `v`, in input order. */
  function IdsScoring(students: seq<StudentScore>, weights: WeightMap, v: real): seq<int> {
    if students == [] then []
    else (if NewTotal(students[0], weights) == v then [students[0].id] else []) + IdsScoring(students[1..], weights, v)
  }

  lemma {:induction false} IdsWithTotalPointwise(a: seq<ScoredRow>, b: seq<ScoredRow>, v: real)
    requires |a| == |b|
    requires forall i :: 0 <= i < |a| ==> a[i].id == b[i].id && a[i].totalScore == b[i].totalScore
    ensures IdsWithTotal(a, v) == IdsWithTotal(b, v)
  {
    if a != [] {
      IdsWithTotalPointwise(a[1..], b[1..], v);
    }
  }

  lemma {:induction false} IdsWithTotalTies(rows: seq<ScoredRow>, v: real)
    ensures IdsWithTotal(rows, v) == IdsWithTotal(Sorting.TiesWith(rows, ScoredRow(0, 0, false, v, None), HigherOrEqual), v)
  {
    var z := ScoredRow(0, 0, false, v, None);
    if rows != [] {
      IdsWithTotalTies(rows[1..], v);
      var head := if HigherOrEqual(rows[0], z) && HigherOrEqual(z, rows[0]) then [rows[0]] else [];
      var tail := Sorting.TiesWith(rows[1..], z, HigherOrEqual);
      assert Sorting.TiesWith(rows, z, HigherOrEqual) == head + tail;
      if head == [] {
        assert head + tail == tail;
      } else {
        assert (head + tail)[1..] == tail;
      }
    }
  }

  lemma {:induction false} IdsScoringAll(students: seq<StudentScore>, weights: WeightMap, now: Timestamp, v: real)
    ensures IdsWithTotal(ScoreAll(students, weights, now), v) == IdsScoring(students, weights, v)
  {
    if students != [] {
      assert ScoreAll(students, weights, now)[1..] == ScoreAll(students[1..], weights, now);
      IdsScoringAll(students[1..], weights, now, v);
    }
  }

  /** Stability: students with equal new totals are ranked in their input order. */
  lemma RankStable(students: seq<StudentScore>, w: WeightMap, now: Timestamp, v: real)
    ensures IdsWithTotal(Ranking(students, w, now), v) == IdsScoring(students, w, v)
  {
    var sc := ScoreAll(students, w, now);
    var so := Sorting.SortBy(sc, HigherOrEqual);
    var z := ScoredRow(0, 0, false, v, None);
    SortedScoresLength(sc);
    IdsWithTotalPointwise(Ranking(students, w, now), so, v);
    HigherOrEqualIsTotalPreorder();
    Sorting.SortStable(sc, z, HigherOrEqual);
    IdsWithTotalTies(so, v);
    IdsWithTotalTies(sc, v);
    IdsScoringAll(students, w, now, v);
  }

  // ---------------------------------------------------------------------------
  // The dirty filter

  lemma {:induction false} EmitExact(rows: seq<ScoredRow>)
    ensures |Emit(rows)| <= |rows|
    ensures forall u :: u in Emit(rows) <==> exists i :: 0 <= i < |rows| && rows[i].changed && u == Strip(rows[i])
  {
    if rows != [] {
      EmitExact(rows[1..]);
      forall u | u in Emit(rows)
        ensures exists i :: 0 <= i < |rows| && rows[i].changed && u == Strip(rows[i])
      {
        if !(rows[0].changed && u == Strip(rows[0])) {
          assert u in Emit(rows[1..]);
          var i :| 0 <= i < |rows[1..]| && rows[1..][i].changed && u == Strip(rows[1..][i]);
          assert rows[i + 1] == rows[1..][i];
        }
      }
      forall i | 0 <= i < |rows| && rows[i].changed ensures Strip(rows[i]) in Emit(rows) {
        if i > 0 {
          assert rows[1..][i - 1] == rows[i];
        }
      }
    }
  }

  lemma EmittedIdKnown(students: seq<StudentScore>, w: WeightMap, now: Timestamp, i: nat)
    requires i < |Ranking(students, w, now)|
    ensures Ranking(students, w, now)[i].id in StudentIds(students)
  {
    var R := Ranking(students, w, now);
    RankingIds(students, w, now);
    assert Ids(R)[i] == R[i].id;
    assert R[i].id in multiset(StudentIds(students));
  }

  /**
   * A student's update is emitted exactly when its total or its rank moved;
   * no other record is emitted, and there are at most N of them.
   */
  lemma UpdatesExact(students: seq<StudentScore>, tasks: seq<CourseTask>, now: Timestamp)
    ensures |ComputeUpdates(students, tasks, now)| <= |students|
    ensures var R := Ranking(students, WeightsOf(tasks), now);
            && |R| == |students|
            && forall u :: u in ComputeUpdates(students, tasks, now) <==>
                 exists i :: 0 <= i < |R| && R[i].changed && u == Strip(R[i])
    ensures forall u :: u in ComputeUpdates(students, tasks, now) ==> u.id in StudentIds(students)
  {
    var R := Ranking(students, WeightsOf(tasks), now);
    assert |R| == |students| by {
      SortedScoresLength(ScoreAll(students, WeightsOf(tasks), now));
    }
    assert ComputeUpdates(students, tasks, now) == Emit(R);
    EmitExact(R);
    forall u | u in Emit(R) ensures u.id in StudentIds(students) {
      var i :| 0 <= i < |R| && R[i].changed && u == Strip(R[i]);
      EmittedIdKnown(students, WeightsOf(tasks), now, i);
    }
  }

  // ---------------------------------------------------------------------------
  // Idempotence: storing the emitted updates and re-running emits nothing

  predicate UniqueIds(students: seq<StudentScore>) {
    Sorting.Distinct(StudentIds(students))
  }

  /** The first update for `id`, as `save` keyed by id would apply it. */
  function FindUpdate(updates: seq<ScoreUpdate>, id: int): Option<ScoreUpdate> {
    if updates == [] then None
    else if updates[0].id == id then Some(updates[0])
    else FindUpdate(updates[1..], id)
  }

  function ApplyOne(s: StudentScore, updates: seq<ScoreUpdate>): StudentScore {
    match FindUpdate(updates, s.id)
    case None => s
    case Some(u) => s.(rank := u.rank, totalScore := u.totalScore, totalScoreChangeDate := u.totalScoreChangeDate)
  }

  /** The stored rows after `updateScoreStudents(updates)`, in the same order. */
  function Apply(students: seq<StudentScore>, updates: seq<ScoreUpdate>): seq<StudentScore> {
    seq(|students|, p requires 0 <= p < |students| => ApplyOne(students[p], updates))
  }

  /** The index of the first row with `id` (|rows| when there is none). */
  function PositionOf(rows: seq<ScoredRow>, id: int): nat {
    if rows == [] then 0
    else if rows[0].id == id then 0
    else 1 + PositionOf(rows[1..], id)
  }

  lemma {:induction false} PositionOfUnique(rows: seq<ScoredRow>, i: nat)
    requires i < |rows|
    requires Sorting.Distinct(Ids(rows))
    ensures PositionOf(rows, rows[i].id) == i
  {
    if i > 0 {
      assert Ids(rows)[0] != Ids(rows)[i];
      assert Ids(rows[1..]) == Ids(rows)[1..];
      PositionOfUnique(rows[1..], i - 1);
    }
  }

  lemma {:induction false} FindUpdateNone(rows: seq<ScoredRow>, id: int)
    requires forall i :: 0 <= i < |rows| ==> rows[i].id != id
    ensures FindUpdate(Emit(rows), id) == None
  {
    if rows != [] {
      FindUpdateNone(rows[1..], id);
      if rows[0].changed {
        assert Emit(rows)[1..] == Emit(rows[1..]);
      } else {
        assert Emit(rows) == Emit(rows[1..]);
      }
    }
  }

  lemma {:induction false} FindUpdateEmitted(rows: seq<ScoredRow>, i: nat)
    requires i < |rows|
    requires Sorting.Distinct(Ids(rows))
    ensures FindUpdate(Emit(rows), rows[i].id) == if rows[i].changed then Some(Strip(rows[i])) else None
  {
    var id := rows[i].id;
    assert Ids(rows[1..]) == Ids(rows)[1..];
    if i == 0 {
      assert forall j :: 0 <= j < |rows[1..]| ==> rows[1..][j].id != id by {
        forall j | 0 <= j < |rows[1..]| ensures rows[1..][j].id != id {
          assert Ids(rows)[0] != Ids(rows)[j + 1];
        }
      }
      FindUpdateNone(rows[1..], id);
      if rows[0].changed {
        assert Emit(rows)[1..] == Emit(rows[1..]);
      } else {
        assert Emit(rows) == Emit(rows[1..]);
      }
    } else {
      assert Ids(rows)[0] != Ids(rows)[i];
      FindUpdateEmitted(rows[1..], i - 1);
      if rows[0].changed {
        assert Emit(rows)[1..] == Emit(rows[1..]);
      } else {
        assert Emit(rows) == Emit(rows[1..]);
      }
    }
  }

  /** A row as the second run sees it: its rank is the one just stored, its total unchanged. */
  function Settled(x: ScoredRow, ranked: seq<ScoredRow>): ScoredRow {
    x.(rank := PositionOf(ranked, x.id) + 1, changed := false)
  }

  lemma UniqueAlongPipeline(students: seq<StudentScore>, weights: WeightMap, now: Timestamp)
    requires UniqueIds(students)
    ensures Sorting.Distinct(Ids(AssignRanks(Sorting.SortBy(ScoreAll(students, weights, now), HigherOrEqual))))
  {
    var sc := ScoreAll(students, weights, now);
    var so := Sorting.SortBy(sc, HigherOrEqual);
    assert Ids(sc) == StudentIds(students);
    ReorderKeepsIdsDistinct(sc, so);
    assert Ids(AssignRanks(so)) == Ids(so);
  }

  /** Reordering rows whose ids are distinct keeps the ids distinct. */
  lemma ReorderKeepsIdsDistinct(a: seq<ScoredRow>, b: seq<ScoredRow>)
    requires multiset(a) == multiset(b)
    requires Sorting.Distinct(Ids(a))
    ensures Sorting.Distinct(Ids(b))
  {
    assert |a| == |b| by { assert |multiset(a)| == |multiset(b)|; }
    forall i, j | 0 <= i < j < |b| ensures Ids(b)[i] != Ids(b)[j] {
      var p := Sorting.PermutationIndex(b, a, i);
      var q := Sorting.PermutationIndex(b, a, j);
      if p == q {
        assert b[i] == b[j];
        assert multiset(b)[b[i]] >= 2 by {
          assert b == b[..i] + [b[i]] + b[i + 1..j] + [b[j]] + b[j + 1..];
        }
        assert Sorting.Distinct(a) by {
          forall u, v | 0 <= u < v < |a| ensures a[u] != a[v] { assert Ids(a)[u] != Ids(a)[v]; }
        }
        Sorting.DistinctCounts(a);
        assert false;
      } else if p < q {
        assert Ids(a)[p] != Ids(a)[q];
      } else {
        assert Ids(a)[q] != Ids(a)[p];
      }
    }
  }

  /** How the second run scores a student whose updates were stored. */
  lemma SettledRow(students: seq<StudentScore>, weights: WeightMap, now: Timestamp, later: Timestamp, p: nat)
    requires UniqueIds(students)
    requires p < |students|
    ensures var R := AssignRanks(Sorting.SortBy(ScoreAll(students, weights, now), HigherOrEqual));
            Score(Apply(students, Emit(R))[p], weights, later) == Settled(ScoreAll(students, weights, now)[p], R)
  {
    var sc := ScoreAll(students, weights, now);
    var R := AssignRanks(Sorting.SortBy(sc, HigherOrEqual));
    var i := StoredRow(students, weights, now, p);
    var s2 := Apply(students, Emit(R))[p];
    assert NewTotal(s2, weights) == sc[p].totalScore by {
      assert s2.taskResults == students[p].taskResults;
    }
  }

  /** What the store holds for student p after the first run: its new rank, total and change date. */
  lemma StoredRow(students: seq<StudentScore>, weights: WeightMap, now: Timestamp, p: nat) returns (i: nat)
    requires UniqueIds(students)
    requires p < |students|
    ensures var sc := ScoreAll(students, weights, now);
            var R := AssignRanks(Sorting.SortBy(sc, HigherOrEqual));
            && i < |R| && PositionOf(R, sc[p].id) == i
            && Apply(students, Emit(R))[p]
               == students[p].(rank := i + 1, totalScore := sc[p].totalScore,
                               totalScoreChangeDate := sc[p].totalScoreChangeDate)
  {
    var sc := ScoreAll(students, weights, now);
    var so := Sorting.SortBy(sc, HigherOrEqual);
    var R := AssignRanks(so);
    SortedScoresLength(sc);
    UniqueAlongPipeline(students, weights, now);
    i := Sorting.PermutationIndex(sc, so, p);
    PositionOfUnique(R, i);
    FindUpdateEmitted(R, i);
  }

  /**
   * Idempotence: after storing what a run emitted, a second run over the
   * same students and tasks (same input order) emits nothing.
   */
  lemma Idempotent(students: seq<StudentScore>, tasks: seq<CourseTask>, now: Timestamp, later: Timestamp)
    requires UniqueIds(students)
    ensures ComputeUpdates(Apply(students, ComputeUpdates(students, tasks, now)), tasks, later) == []
  {
    var w := WeightsOf(tasks);
    var sc := ScoreAll(students, w, now);
    var so := Sorting.SortBy(sc, HigherOrEqual);
    var R := AssignRanks(so);
    var S2 := Apply(students, Emit(R));
    var sc2 := ScoreAll(S2, w, later);
    var f := (x: ScoredRow) => Settled(x, R);
    forall p | 0 <= p < |students| ensures sc2[p] == f(sc[p]) {
      SettledRow(students, w, now, later, p);
    }
    assert sc2 == Sorting.Map(sc, f);
    Sorting.SortMap(sc, f, HigherOrEqual, HigherOrEqual);
    var so2 := Sorting.SortBy(sc2, HigherOrEqual);
    assert so2 == Sorting.Map(so, f);
    SortedScoresLength(sc);
    UniqueAlongPipeline(students, w, now);
    var R2 := AssignRanks(so2);
    forall i | 0 <= i < |R2| ensures !R2[i].changed {
      PositionOfUnique(R, i);
    }
    NothingChangedEmitsNothing(R2);
  }

  lemma {:induction false} NothingChangedEmitsNothing(rows: seq<ScoredRow>)
    requires forall i :: 0 <= i < |rows| ==> !rows[i].changed
    ensures Emit(rows) == []
  {
    if rows != [] {
      NothingChangedEmitsNothing(rows[1..]);
    }
  }

  // ---------------------------------------------------------------------------
  // The nightly run over all courses

  /** What `Promise.all([getStudentsScore, getCourseTasks])` resolved to; it may reject. */
  datatype CourseLoad = CourseLoad(students: seq<StudentScore>, tasks: seq<CourseTask>)

  /**
   * One course as the run meets it: its id, its load (None when a fetch
   * rejects), the clock reading used for the change dates, and whether
   * `updateScoreStudents` resolves.
   */
  datatype CourseRun = CourseRun(courseId: int, load: Option<CourseLoad>, now: Timestamp, saveResolves: bool)

  datatype JobOutcome = Completed | Aborted(course: nat)

  predicate RunsThrough(c: CourseRun) {
    c.load.Some? && c.saveResolves
  }

  /** The index of the first course whose fetch or save rejects (|courses| when none does). */
  function FirstFailure(courses: seq<CourseRun>): (k: nat)
    ensures k <= |courses|
    ensures forall j :: 0 <= j < k ==> RunsThrough(courses[j])
    ensures k < |courses| ==> !RunsThrough(courses[k])
  {
    if courses == [] then 0
    else if !RunsThrough(courses[0]) then 0
    else 1 + FirstFailure(courses[1..])
  }

  /** The batch a course that loaded hands to `updateScoreStudents`. */
  function Batch(c: CourseRun): seq<ScoreUpdate>
    requires c.load.Some?
  {
    LoadUpdates(c.load.value, c.now)
  }

  function LoadUpdates(load: CourseLoad, now: Timestamp): seq<ScoreUpdate> {
    ComputeUpdates(load.students, load.tasks, now)
  }

  /**
   * The `for (const course of courses)` loop: courses are processed one after
   * another, and since nothing catches a rejected fetch or save, the first
   * one ends the whole run; later courses are never touched.
   */
  method RunScoreJob(courses: seq<CourseRun>) returns (saved: seq<seq<ScoreUpdate>>, outcome: JobOutcome)
    ensures |saved| == FirstFailure(courses)
    ensures forall k :: 0 <= k < |saved| ==> courses[k].load.Some? && saved[k] == Batch(courses[k])
    ensures outcome == if |saved| == |courses| then Completed else Aborted(|saved|)
  {
    saved, outcome := RunCourses(courses, LoadUpdates);
  }

  /** The loop of `RunScoreJob`, with the batch of a loaded course computed by `compute`. */
  method RunCourses(courses: seq<CourseRun>, compute: (CourseLoad, Timestamp) -> seq<ScoreUpdate>)
    returns (saved: seq<seq<ScoreUpdate>>, outcome: JobOutcome)
    ensures |saved| == FirstFailure(courses)
    ensures forall k :: 0 <= k < |saved| ==>
              courses[k].load.Some? && saved[k] == compute(courses[k].load.value, courses[k].now)
    ensures outcome == if |saved| == |courses| then Completed else Aborted(|saved|)
  {
    saved := [];
    var i := 0;
    var aborted := false;
    while i < |courses| && !aborted
      invariant 0 <= i <= |courses|
      invariant forall j :: 0 <= j < i ==> RunsThrough(courses[j])
      invariant |saved| == i
      invariant forall k :: 0 <= k < i ==> saved[k] == compute(courses[k].load.value, courses[k].now)
      invariant aborted ==> i < |courses| && !RunsThrough(courses[i])
      decreases |courses| - i, if aborted then 0 else 1
    {
      var scores := ProcessCourse(courses[i], compute);
      if scores.None? {
        aborted := true;
      } else {
        saved := saved + [scores.value];
        i := i + 1;
      }
    }
    FailureAt(courses, i);
    outcome := if aborted then Aborted(i) else Completed;
  }

  /**
   * One iteration of the loop: fetch the students and tasks, compute the
   * batch and save it. None when the fetch or the save rejects.
   */
  method ProcessCourse(course: CourseRun, compute: (CourseLoad, Timestamp) -> seq<ScoreUpdate>)
    returns (scores: Option<seq<ScoreUpdate>>)
    ensures scores.Some? <==> RunsThrough(course)
    ensures scores.Some? ==> scores.value == compute(course.load.value, course.now)
  {
    if course.load.None? {
      return None;
    }
    var updates := compute(course.load.value, course.now);
    if !course.saveResolves {
      return None;
    }
    scores := Some(updates);
  }

  /** A course that fails after a run of successful ones is the first failure. */
  lemma {:induction false} FailureAt(courses: seq<CourseRun>, i: nat)
    requires i <= |courses|
    requires forall j :: 0 <= j < i ==> RunsThrough(courses[j])
    requires i < |courses| ==> !RunsThrough(courses[i])
    ensures FirstFailure(courses) == i
  {
    if i > 0 {
      FailureAt(courses[1..], i - 1);
    }
  }
}
