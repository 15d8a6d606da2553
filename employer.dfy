/**
 * The employer's job-seeker table (client/src/pages/employer/index.tsx):
 * the badge counter behind the public-feedback column, the zero padding of
 * the CV expiry date, the course-status cascade, the empty-cell texts and the
 * mapping of the loaded users to table rows.
 */
module Employer {
  import opened Wrappers
  import Text
  import Sorting

  // ---------------------------------------------------------------------------
  // countBadges

  /** A feedback entry's `badgeId`; a missing id and the empty id are both falsy. */
  predicate Truthy(badgeId: Option<string>) { badgeId.Some? && badgeId.value != "" }

  /** How many entries carry exactly this badge id. */
  function Occurrences(badges: seq<Option<string>>, id: string): nat {
    if badges == [] then 0
    else Occurrences(badges[..|badges| - 1], id) + (if badges[|badges| - 1] == Some(id) then 1 else 0)
  }

  /** How many entries have a truthy badge id. */
  function TruthyCount(badges: seq<Option<string>>): nat {
    if badges == [] then 0
    else TruthyCount(badges[..|badges| - 1]) + (if Truthy(badges[|badges| - 1]) then 1 else 0)
  }

  /** The truthy ids in the order they first appear (insertion order; see `CountBadges` on integer-like ids). */
  function FirstSeen(badges: seq<Option<string>>): seq<string> {
    if badges == [] then []
    else
      var keys := FirstSeen(badges[..|badges| - 1]);
      var b := badges[|badges| - 1];
      if Truthy(b) && b.value !in keys then keys + [b.value] else keys
  }

  /**
   * `countBadges`: one pass over the entries, skipping falsy ids, bumping the
   * count of a known id and adding a new id with count 1. The object is the
   * map `counts`; `keys` is its insertion order, which is the order `Object.keys`
   * lists it in as long as no id looks like an array index.
   */
  method CountBadges(badges: seq<Option<string>>) returns (counts: map<string, nat>, keys: seq<string>)
    ensures keys == FirstSeen(badges)
    ensures forall id :: id in counts <==> id in keys
    ensures forall id :: id in counts ==> counts[id] == Occurrences(badges, id)
  {
    counts := map[];
    keys := [];
    var i := 0;
    while i < |badges|
      invariant 0 <= i <= |badges|
      invariant keys == FirstSeen(badges[..i])
      invariant forall id :: id in counts <==> id in keys
      invariant forall id :: id in counts ==> counts[id] == Occurrences(badges[..i], id)
      invariant "" !in counts
    {
      OccurrencesStep(badges, i);
      FirstSeenExact(badges[..i]);
      var badgeId := badges[i];
      if badgeId.Some? && badgeId.value != "" {
        if badgeId.value in counts {
          counts := counts[badgeId.value := counts[badgeId.value] + 1];
        } else {
          counts := counts[badgeId.value := 1];
          keys := keys + [badgeId.value];
        }
      }
      assert badges[..i + 1][..i] == badges[..i];
      i := i + 1;
    }
    assert badges[..i] == badges;
  }

  /** Taking one more entry adds one to the count of its own id and to no other. */
  lemma OccurrencesStep(badges: seq<Option<string>>, i: nat)
    requires i < |badges|
    ensures forall id :: Occurrences(badges[..i + 1], id) == Occurrences(badges[..i], id) + (if badges[i] == Some(id) then 1 else 0)
  {
    assert badges[..i + 1][..i] == badges[..i];
  }

  /** The keys are exactly the distinct truthy ids. */
  lemma {:induction false} FirstSeenExact(badges: seq<Option<string>>)
    ensures Sorting.Distinct(FirstSeen(badges))
    ensures forall id :: id in FirstSeen(badges) <==> id != "" && Occurrences(badges, id) > 0
  {
    if badges != [] {
      FirstSeenExact(badges[..|badges| - 1]);
    }
  }

  /** The counts of the listed keys, added up. */
  function SumOfCounts(keys: seq<string>, badges: seq<Option<string>>): nat {
    if keys == [] then 0
    else SumOfCounts(keys[..|keys| - 1], badges) + Occurrences(badges, keys[|keys| - 1])
  }

  /** One more entry adds one to the sum exactly when it is truthy and its id is listed (once). */
  lemma {:induction false} SumOfCountsStep(keys: seq<string>, badges: seq<Option<string>>, b: Option<string>)
    requires Sorting.Distinct(keys) && "" !in keys
    ensures SumOfCounts(keys, badges + [b]) == SumOfCounts(keys, badges) + (if Truthy(b) && b.value in keys then 1 else 0)
  {
    if keys != [] {
      var front := keys[..|keys| - 1];
      assert Sorting.Distinct(front);
      SumOfCountsStep(front, badges, b);
      assert (badges + [b])[..|badges|] == badges;
      var last := keys[|keys| - 1];
      assert b == Some(last) ==> last !in front;
      assert Truthy(b) && b.value in keys ==> b.value in front || b.value == last;
    }
  }

  /** The counts add up to the number of entries with a truthy id. */
  lemma {:induction false} CountsSumToTruthy(badges: seq<Option<string>>)
    ensures SumOfCounts(FirstSeen(badges), badges) == TruthyCount(badges)
  {
    if badges != [] {
      var prefix := badges[..|badges| - 1];
      var b := badges[|badges| - 1];
      assert badges == prefix + [b];
      CountsSumToTruthy(prefix);
      FirstSeenExact(prefix);
      SumOfCountsStep(FirstSeen(prefix), prefix, b);
      if Truthy(b) && b.value !in FirstSeen(prefix) {
        assert Occurrences(prefix, b.value) == 0;
        assert FirstSeen(badges)[..|FirstSeen(badges)| - 1] == FirstSeen(prefix);
      }
    }
  }

  // ---------------------------------------------------------------------------
  // addZeroPadding and the expiry date

  /** `` `0${num}`.slice(-2) ``: the last two characters of the number with a `0` in front. */
  function AddZeroPadding(n: nat): (r: string)
    ensures |r| == 2 && Text.AllDigits(r)
    ensures n < 10 ==> r == "0" + Text.NatToString(n)
    ensures 10 <= n < 100 ==> r == Text.NatToString(n)
  {
    var s := "0" + Text.NatToString(n);
    s[|s| - 2..]
  }

  /** The last character of a number's decimal text is its last digit. */
  lemma {:induction false} LastDigit(n: nat)
    ensures var s := Text.NatToString(n); s[|s| - 1] == Text.DigitChar(n % 10)
  {
  }

  /** The padded text is the number's tens and units digits. */
  lemma PaddingDigits(n: nat)
    ensures AddZeroPadding(n) == [Text.DigitChar(n / 10 % 10), Text.DigitChar(n % 10)]
  {
    var t := Text.NatToString(n);
    var tens := if |t| == 1 then '0' else t[|t| - 2];
    assert AddZeroPadding(n) == [tens, t[|t| - 1]] by {
      PaddingSlice(t);
    }
    LastDigit(n);
    TensDigit(n);
  }

  /** The last two characters of `0` followed by a non-empty text. */
  lemma PaddingSlice(t: string)
    requires |t| >= 1
    ensures var s := "0" + t;
            s[|s| - 2..] == [if |t| == 1 then '0' else t[|t| - 2], t[|t| - 1]]
  {
  }

  /** The character before the last of a number's text is its tens digit; a one-digit number has tens digit 0. */
  lemma TensDigit(n: nat)
    ensures var t := Text.NatToString(n);
            (if |t| == 1 then '0' else t[|t| - 2]) == Text.DigitChar(n / 10 % 10)
  {
    if n >= 10 {
      var u := Text.NatToString(n / 10);
      LastDigit(n / 10);
      assert Text.NatToString(n) == u + [Text.DigitChar(n % 10)];
    } else {
      assert n / 10 % 10 == 0;
    }
  }

  lemma DigitRoundTrip(d: nat)
    requires d < 10
    ensures Text.DigitValue(Text.DigitChar(d)) == d
  {
  }

  /** The padded text reads back as the number modulo 100; for a month or a day, as the number itself. */
  lemma PaddingReadsBack(n: nat)
    ensures Text.ParseDigits(AddZeroPadding(n)) == n % 100
  {
    PaddingDigits(n);
    TwoDigitsRead(n / 10 % 10, n % 10);
    LastTwoDigits(n);
  }

  /** Two digits read as ten times the first plus the second. */
  lemma TwoDigitsRead(a: nat, b: nat)
    requires a < 10 && b < 10
    ensures Text.ParseDigits([Text.DigitChar(a), Text.DigitChar(b)]) == 10 * a + b
  {
    var r := [Text.DigitChar(a), Text.DigitChar(b)];
    DigitRoundTrip(a);
    DigitRoundTrip(b);
    assert r[..1] == [Text.DigitChar(a)];
    assert r[..1][..0] == [];
    assert Text.ParseDigits(r[..1]) == a;
    assert Text.ParseDigits(r) == 10 * Text.ParseDigits(r[..1]) + b;
  }

  /** A number modulo 100 is made of its tens and units digits. */
  lemma LastTwoDigits(n: nat)
    ensures n % 100 == 10 * (n / 10 % 10) + n % 10
  {
    var q := n / 10;
    assert n == 10 * q + n % 10;
    assert q == 10 * (q / 10) + q % 10;
    HundredRemainder(n, q / 10, 10 * (q % 10) + n % 10);
  }

  /** The remainder modulo 100 of `100 * k + r`, for `r` below 100, is `r`. */
  lemma HundredRemainder(n: int, k: int, r: int)
    requires n == 100 * k + r && 0 <= r < 100
    ensures n % 100 == r
  {
  }

  /** `${year}-${addZeroPadding(month)}-${addZeroPadding(date)}` for the CV expiry column. */
  function ExpiryText(year: nat, month: nat, day: nat): (r: string)
    requires 1 <= month <= 12 && 1 <= day <= 31
    ensures |r| == |Text.NatToString(year)| + 6
    ensures r[|r| - 3] == '-' && r[|r| - 6] == '-'
    ensures r[..|r| - 6] == Text.NatToString(year)
    ensures r[|r| - 5..|r| - 3] == AddZeroPadding(month) && r[|r| - 2..] == AddZeroPadding(day)
  {
    DashedText(Text.NatToString(year), AddZeroPadding(month), AddZeroPadding(day))
  }

  /** `y-m-d`: with two-character `m` and `d`, each part sits at a fixed offset from the end. */
  function DashedText(y: string, m: string, d: string): (r: string)
    requires |m| == 2 && |d| == 2
    ensures |r| == |y| + 6 && r[|r| - 3] == '-' && r[|r| - 6] == '-'
    ensures r[..|r| - 6] == y && r[|r| - 5..|r| - 3] == m && r[|r| - 2..] == d
  {
    var r := y + "-" + m + "-" + d;
    assert r == y + ("-" + m + "-" + d);
    r
  }

  /** A month or a day number (below 100) reads back from its padded text unchanged. */
  lemma BelowHundredReadsBack(n: nat)
    requires n < 100
    ensures Text.ParseDigits(AddZeroPadding(n)) == n
  {
    PaddingReadsBack(n);
    HundredRemainder(n, 0, n);
  }

  // ---------------------------------------------------------------------------
  // The courses column

  datatype CourseStatus = Expelled | CompletedWithCertificate(link: string) | Completed | InProgress

  const CertificateBase: string := "https://app.rs.school/certificate/"

  predicate HasCertificate(certificateId: Option<string>) { certificateId.Some? && certificateId.value != "" }

  /** The status cascade: expelled, else a certificate, else completed, else in progress. */
  function Status(isExpelled: bool, certificateId: Option<string>, isCourseCompleted: bool): (r: CourseStatus)
    ensures r == Expelled <==> isExpelled
    ensures r.CompletedWithCertificate? <==> !isExpelled && HasCertificate(certificateId)
    ensures r.CompletedWithCertificate? ==> r.link == CertificateBase + certificateId.value
    ensures r == Completed <==> !isExpelled && !HasCertificate(certificateId) && isCourseCompleted
    ensures r == InProgress <==> !isExpelled && !HasCertificate(certificateId) && !isCourseCompleted
  {
    if isExpelled then Expelled
    else if HasCertificate(certificateId) then CompletedWithCertificate(CertificateBase + certificateId.value)
    else if isCourseCompleted then Completed
    else InProgress
  }

  /** Precedence: expulsion hides a certificate, a certificate hides the completion flag. */
  lemma StatusPrecedence(certificateId: Option<string>, isCourseCompleted: bool)
    ensures Status(true, certificateId, isCourseCompleted) == Expelled
    ensures HasCertificate(certificateId) ==> Status(false, certificateId, isCourseCompleted).CompletedWithCertificate?
    ensures Status(false, Some(""), isCourseCompleted) == Status(false, None, isCourseCompleted)
  {
  }

  datatype CourseRecord = CourseRecord(
    courseFullName: string,
    courseName: string,
    locationName: Option<string>,
    isExpelled: bool,
    certificateId: Option<string>,
    isCourseCompleted: bool,
    totalScore: int,
    position: int,
    mentor: Option<CourseMentor>)

  /** The `mentor` object a course record carries; it may be missing (null). */
  datatype CourseMentor = CourseMentor(name: string, githubId: string)

  /** `` `${courseFullName}${locationName ? locationName : ''}` `` */
  function CourseTitle(c: CourseRecord): (r: string)
    ensures |r| == |c.courseFullName| + (if c.locationName.Some? then |c.locationName.value| else 0)
    ensures r[..|c.courseFullName|] == c.courseFullName
    ensures r[|c.courseFullName|..] == if c.locationName.Some? then c.locationName.value else ""
  {
    c.courseFullName + (if c.locationName.Some? && c.locationName.value != "" then c.locationName.value else "")
  }

  datatype CourseItem = CourseItem(
    summary: string,
    title: string,
    status: CourseStatus,
    mentorLink: string,
    mentorName: string,
    totalScore: int,
    position: int)

  /**
   * What the column renders: the `No courses` text, a list of items, or a
   * TypeError thrown while destructuring a course whose `mentor` is null.
   */
  datatype CoursesCell = NoCourses | CourseList(items: seq<CourseItem>) | MentorMissing

  const NoCoursesText: string := "No courses"

  predicate AllMentored(cs: seq<CourseRecord>) {
    forall k :: 0 <= k < |cs| ==> cs[k].mentor.Some?
  }

  /**
   * The courses cell: the `No courses` text for a null list (an empty list is
   * truthy), a thrown render when some course has no mentor, else one item
   * per course.
   */
  function Courses(courses: Option<seq<CourseRecord>>): (r: CoursesCell)
    ensures r == NoCourses <==> courses.None?
    ensures r == MentorMissing <==> courses.Some? && exists k :: 0 <= k < |courses.value| && courses.value[k].mentor.None?
    ensures r.CourseList? ==> |r.items| == |courses.value|
    ensures r.CourseList? ==> forall k :: 0 <= k < |r.items| ==>
              var c := courses.value[k];
              && c.mentor.Some?
              && r.items[k].summary == c.courseName
              && r.items[k].title == CourseTitle(c)
              && r.items[k].status == Status(c.isExpelled, c.certificateId, c.isCourseCompleted)
              && r.items[k].mentorLink == "https://github.com/" + c.mentor.value.githubId
              && r.items[k].mentorName == c.mentor.value.name
              && r.items[k].totalScore == c.totalScore && r.items[k].position == c.position
  {
    match courses
    case None => NoCourses
    case Some(cs) =>
      if !AllMentored(cs) then MentorMissing
      else
        CourseList(seq(|cs|, k requires 0 <= k < |cs| =>
          var m := cs[k].mentor.value;
          CourseItem(cs[k].courseName, CourseTitle(cs[k]),
                     Status(cs[k].isExpelled, cs[k].certificateId, cs[k].isCourseCompleted),
                     "https://github.com/" + m.githubId, m.name, cs[k].totalScore, cs[k].position)))
  }

  /** Only a null list says `No courses`; an empty list gives an empty list of items. */
  lemma EmptyCourseListIsAList()
    ensures Courses(Some([])) == CourseList([])
    ensures Courses(None) != Courses(Some([]))
  {
  }

  // ---------------------------------------------------------------------------
  // The public-feedback column

  datatype FeedbackCell = NoFeedback | BadgeList(badges: seq<(string, nat)>)

  const NoFeedbackText: string := "No public feedback yet"

  /** The feedback cell: the empty text for no entries, else each counted badge with its count, in key order. */
  function Feedback(badges: seq<Option<string>>): (r: FeedbackCell)
    ensures r == NoFeedback <==> badges == []
    ensures r.BadgeList? ==> |r.badges| == |FirstSeen(badges)|
    ensures r.BadgeList? ==> forall k :: 0 <= k < |r.badges| ==>
              r.badges[k] == (FirstSeen(badges)[k], Occurrences(badges, FirstSeen(badges)[k]))
  {
    if |badges| == 0 then NoFeedback
    else
      var keys := FirstSeen(badges);
      BadgeList(seq(|keys|, k requires 0 <= k < |keys| => (keys[k], Occurrences(badges, keys[k]))))
  }

  /** Every listed badge has a count of at least one, and no badge is listed twice. */
  lemma FeedbackBadgesCounted(badges: seq<Option<string>>)
    requires badges != []
    ensures var cell := Feedback(badges);
            && (forall k :: 0 <= k < |cell.badges| ==> cell.badges[k].1 >= 1 && cell.badges[k].0 != "")
            && forall i, j :: 0 <= i < j < |cell.badges| ==> cell.badges[i].0 != cell.badges[j].0
  {
    FirstSeenExact(badges);
    var keys := FirstSeen(badges);
    assert forall k :: 0 <= k < |keys| ==> keys[k] in keys;
  }

  /** Entries that all lack a badge id still make a (empty) badge list, not the no-feedback text. */
  lemma FalsyEntriesGiveEmptyList()
    ensures Feedback([None, Some("")]) == BadgeList([])
  {
    assert FirstSeen([None, Some("")][..1]) == [];
  }

  // ---------------------------------------------------------------------------
  // Row mapping

  datatype JobSeeker = JobSeeker(
    name: string,
    fullTime: bool,
    githubId: string,
    startFrom: string,
    englishLevel: string,
    desiredPosition: string,
    courses: Option<seq<CourseRecord>>,
    feedback: seq<Option<string>>,
    location: string,
    expires: int)

  datatype TableRow = TableRow(
    key: nat,
    name: string,
    githubId: string,
    expires: int,
    courses: Option<seq<CourseRecord>>,
    feedback: seq<Option<string>>,
    desiredPosition: string,
    fullTime: string,
    location: string,
    startFrom: string,
    englishLevel: string)

  function ToRow(u: JobSeeker, index: nat): TableRow {
    TableRow(index, u.name, u.githubId, u.expires, u.courses, u.feedback, u.desiredPosition,
             if u.fullTime then "Yes" else "No", u.location, u.startFrom, Text.ToUpper(u.englishLevel))
  }

  /** The table's data: null without users, else one row per user keyed by its index. */
  function TableData(users: Option<seq<JobSeeker>>): (r: Option<seq<TableRow>>)
    ensures r.None? <==> users.None?
    ensures r.Some? ==> |r.value| == |users.value|
    ensures r.Some? ==> forall i :: 0 <= i < |r.value| ==>
              var row := r.value[i];
              var u := users.value[i];
              && row.key == i
              && (row.fullTime == "Yes" <==> u.fullTime) && (row.fullTime == "No" <==> !u.fullTime)
              && row.englishLevel == Text.ToUpper(u.englishLevel)
              && row.name == u.name && row.githubId == u.githubId && row.expires == u.expires
              && row.courses == u.courses && row.feedback == u.feedback
              && row.desiredPosition == u.desiredPosition && row.location == u.location
              && row.startFrom == u.startFrom
  {
    match users
    case None => None
    case Some(us) => Some(seq(|us|, i requires 0 <= i < |us| => ToRow(us[i], i)))
  }

  /** Row keys are distinct, and the English level column is already upper case. */
  lemma TableKeysDistinct(users: seq<JobSeeker>)
    ensures var rows := TableData(Some(users)).value;
            && (forall i, j :: 0 <= i < j < |rows| ==> rows[i].key != rows[j].key)
            && forall i :: 0 <= i < |rows| ==> Text.ToUpper(rows[i].englishLevel) == rows[i].englishLevel
  {
    var rows := TableData(Some(users)).value;
    forall i | 0 <= i < |rows| ensures Text.ToUpper(rows[i].englishLevel) == rows[i].englishLevel {
      Text.UpperIdempotent(users[i].englishLevel);
    }
  }
}
