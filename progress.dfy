/** Lesson counting and the two progress percentages: the integer one shown by
    course_detail (courses/views.py) and the one of Student.get_course_progress
    (courses/models.py). The LessonProgress table is a map keyed by
    (student, lesson), so there is at most one row per pair by construction. */
module Progress {
  import opened Common

  /** The lessons of course `c` (Course.total_lessons counts them). */
  function CourseLessons(lessons: map<LessonId, CourseId>, c: CourseId): set<LessonId> {
    set l | l in lessons && lessons[l] == c
  }

  function TotalLessons(lessons: map<LessonId, CourseId>, c: CourseId): nat {
    |CourseLessons(lessons, c)|
  }

  /** The LessonProgress rows of student `s` that are completed and whose
      lesson belongs to course `c`: the query of get_completed_lessons_count
      and of course_detail. */
  function CompletedRows(progress: map<(UserId, LessonId), bool>, lessons: map<LessonId, CourseId>,
                         s: UserId, c: CourseId): set<(UserId, LessonId)> {
    set k | k in progress && k.0 == s && progress[k] && k.1 in lessons && lessons[k.1] == c
  }

  function CompletedCount(progress: map<(UserId, LessonId), bool>, lessons: map<LessonId, CourseId>,
                          s: UserId, c: CourseId): nat {
    |CompletedRows(progress, lessons, s, c)|
  }

  /** Lesson `l` has a completed progress row for student `s`. */
  predicate Done(progress: map<(UserId, LessonId), bool>, s: UserId, l: LessonId) {
    (s, l) in progress && progress[(s, l)]
  }

  /** The lessons of `c` that `s` has completed. */
  function DoneLessons(progress: map<(UserId, LessonId), bool>, lessons: map<LessonId, CourseId>,
                       s: UserId, c: CourseId): set<LessonId> {
    set l | l in CourseLessons(lessons, c) && Done(progress, s, l)
  }

  /** course_detail's value: int((completed / total) * 100), and 0 when the
      course has no lessons. Both counts are non-negative, so truncation is
      integer division (see README for the float idealisation). */
  function Percentage(completed: nat, total: nat): int {
    if total > 0 then completed * 100 / total else 0
  }

  /** get_course_progress's value, as an exact real. */
  function RealPercentage(completed: nat, total: nat): real {
    if total == 0 then 0.0 else (completed as real / total as real) * 100.0
  }

  /** Student.get_course_progress: no enrollment check, 0 for a course without lessons. */
  function CourseProgress(progress: map<(UserId, LessonId), bool>, lessons: map<LessonId, CourseId>,
                          s: UserId, c: CourseId): real {
    RealPercentage(CompletedCount(progress, lessons, s, c), TotalLessons(lessons, c))
  }

  // ---------------------------------------------------------------------------
  // Counting

  /** The (student, lesson) keys pairing student `s` with each lesson of `t`. */
  function PairsWith(s: UserId, t: set<LessonId>): set<(UserId, LessonId)> {
    set l | l in t :: (s, l)
  }

  /** Pairing a fixed student with each lesson of a set is one-to-one. */
  lemma {:induction false} PairsWithCard(s: UserId, t: set<LessonId>)
    ensures |PairsWith(s, t)| == |t|
  {
    if t != {} {
      var x :| x in t;
      var rest := t - {x};
      PairsWithCard(s, rest);
      assert PairsWith(s, t) == PairsWith(s, rest) + {(s, x)};
    } else {
      assert PairsWith(s, t) == {};
    }
  }

  /** A subset is no larger, and a subset of the same size is the whole set. */
  lemma SubsetCard<T>(a: set<T>, b: set<T>)
    requires a <= b
    ensures |a| <= |b|
    ensures |a| == |b| ==> a == b
  {
    assert a * b == a;
    if |a| == |b| {
      assert |b - a| == 0;
    }
  }

  /** Because rows are keyed by (student, lesson), the completed rows are in
      one-to-one correspondence with the completed lessons of the course, so
      the count never exceeds the course's lesson count; it reaches it exactly
      when every lesson of the course is completed. */
  lemma CompletedCountBound(progress: map<(UserId, LessonId), bool>, lessons: map<LessonId, CourseId>,
                            s: UserId, c: CourseId)
    ensures CompletedCount(progress, lessons, s, c) == |DoneLessons(progress, lessons, s, c)|
    ensures CompletedCount(progress, lessons, s, c) <= TotalLessons(lessons, c)
    ensures CompletedCount(progress, lessons, s, c) == TotalLessons(lessons, c) <==>
              forall l :: l in lessons && lessons[l] == c ==> Done(progress, s, l)
  {
    var done := DoneLessons(progress, lessons, s, c);
    assert CompletedRows(progress, lessons, s, c) == PairsWith(s, done);
    PairsWithCard(s, done);
    SubsetCard(done, CourseLessons(lessons, c));
    if forall l :: l in lessons && lessons[l] == c ==> Done(progress, s, l) {
      assert done == CourseLessons(lessons, c);
    }
    if |done| == TotalLessons(lessons, c) {
      assert done == CourseLessons(lessons, c);
      forall l | l in lessons && lessons[l] == c ensures Done(progress, s, l) {
        assert l in done;
      }
    }
  }

  /** Rows only ever gaining the completed flag (and none losing it) can only
      raise a course's completed count. */
  lemma CompletedCountGrows(p0: map<(UserId, LessonId), bool>, p1: map<(UserId, LessonId), bool>,
                            lessons: map<LessonId, CourseId>, s: UserId, c: CourseId)
    requires forall k :: k in p0 && p0[k] ==> k in p1 && p1[k]
    ensures CompletedCount(p0, lessons, s, c) <= CompletedCount(p1, lessons, s, c)
  {
    SubsetCard(CompletedRows(p0, lessons, s, c), CompletedRows(p1, lessons, s, c));
  }

  // ---------------------------------------------------------------------------
  // Integer percentage (course_detail)

  lemma MulMono(a: nat, b: nat, t: nat)
    requires a <= b
    ensures a * t <= b * t
  {
  }

  /** Integer division by a positive divisor reaches k exactly when the dividend reaches k times it. */
  lemma DivAtLeast(a: nat, t: nat, k: nat)
    requires t > 0
    ensures a / t >= k <==> a >= k * t
  {
    var q, r := a / t, a % t;
    assert a == q * t + r && 0 <= r < t;
    if q >= k {
      MulMono(k, q, t);
    } else {
      MulMono(q + 1, k, t);
      assert (q + 1) * t == q * t + t;
    }
  }

  /** Integer percentage of at most all lessons lies in [0, 100], and is 100
      exactly when every lesson is completed and there is at least one. */
  lemma PercentageBounds(completed: nat, total: nat)
    requires completed <= total
    ensures 0 <= Percentage(completed, total) <= 100
    ensures Percentage(completed, total) == 100 <==> total > 0 && completed == total
  {
    if total > 0 {
      MulMono(completed, total, 100);
      DivAtLeast(completed * 100, total, 101);
      DivAtLeast(completed * 100, total, 100);
      if completed < total {
        MulMono(completed + 1, total, 100);
      }
    }
  }

  /** More completed lessons never lower the integer percentage. */
  lemma PercentageMonotone(c0: nat, c1: nat, total: nat)
    requires c0 <= c1
    ensures Percentage(c0, total) <= Percentage(c1, total)
  {
    if total > 0 {
      var q0 := c0 * 100 / total;
      DivAtLeast(c0 * 100, total, q0);
      MulMono(c0, c1, 100);
      DivAtLeast(c1 * 100, total, q0);
    }
  }

  // ---------------------------------------------------------------------------
  // Real percentage (Student.get_course_progress)

  /** The exact percentage of at most all lessons lies in [0, 100] and is 100
      exactly when every lesson is completed and there is at least one. */
  lemma RealPercentageBounds(completed: nat, total: nat)
    requires completed <= total
    ensures 0.0 <= RealPercentage(completed, total) <= 100.0
    ensures RealPercentage(completed, total) == 100.0 <==> total > 0 && completed == total
  {
    if total > 0 {
      var x := completed as real / total as real;
      assert x * total as real == completed as real;
      if x == 1.0 {
        assert completed == total;
      }
    }
  }

  /** get_course_progress is 0 for a course without lessons, lies in [0, 100],
      and is 100 exactly when the course has lessons and all are completed. */
  lemma CourseProgressBounds(progress: map<(UserId, LessonId), bool>, lessons: map<LessonId, CourseId>,
                             s: UserId, c: CourseId)
    ensures TotalLessons(lessons, c) == 0 ==> CourseProgress(progress, lessons, s, c) == 0.0
    ensures 0.0 <= CourseProgress(progress, lessons, s, c) <= 100.0
    ensures CourseProgress(progress, lessons, s, c) == 100.0 <==>
              TotalLessons(lessons, c) > 0 &&
              forall l :: l in lessons && lessons[l] == c ==> Done(progress, s, l)
  {
    CompletedCountBound(progress, lessons, s, c);
    RealPercentageBounds(CompletedCount(progress, lessons, s, c), TotalLessons(lessons, c));
  }
}
