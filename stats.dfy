/** Instructor statistics: Instructor.total_students (courses/models.py) and
    the distinct student count of the instructor dashboard and profile views
    (courses/views.py). */
module Stats {
  import opened Common
  import opened Catalog

  /** The rows of the Student.enrolled_courses join table whose course is
      owned by instructor `i`: one (student, course) pair per membership. */
  function OwnedMemberships(students: map<UserId, set<CourseId>>, courses: map<CourseId, Course>,
                            i: UserId): set<(UserId, CourseId)> {
    set s, c | s in students && c in students[s] && c in courses && courses[c].instructor == i :: (s, c)
  }

  /** Instructor.total_students: Count('enrolled_students') over the
      instructor's courses, so a student enrolled in two of them counts twice;
      `or 0` makes it 0 when there is nothing to count. */
  function TotalStudents(students: map<UserId, set<CourseId>>, courses: map<CourseId, Course>,
                         i: UserId): nat {
    |OwnedMemberships(students, courses, i)|
  }

  /** Whether student `s` is enrolled in some course owned by instructor `i`. */
  predicate TakesCourseOf(students: map<UserId, set<CourseId>>, courses: map<CourseId, Course>,
                          s: UserId, i: UserId)
    requires s in students
  {
    exists c :: c in students[s] && c in courses && courses[c].instructor == i
  }

  /** The `.distinct().count()` query of instructor_dashboard and instructor_profile. */
  function DistinctStudents(students: map<UserId, set<CourseId>>, courses: map<CourseId, Course>,
                            i: UserId): nat {
    |set s | s in students && TakesCourseOf(students, courses, s, i)|
  }

  /** The students of a set of pairs: there are no more of them than pairs. */
  lemma {:induction false} FirstsCard(pairs: set<(UserId, CourseId)>)
    ensures |set p | p in pairs :: p.0| <= |pairs|
  {
    if pairs != {} {
      var x :| x in pairs;
      var rest := pairs - {x};
      FirstsCard(rest);
      assert (set p | p in pairs :: p.0) == (set p | p in rest :: p.0) + {x.0};
    } else {
      assert (set p | p in pairs :: p.0) == {};
    }
  }

  /** The distinct count never exceeds total_students; both are 0 for an
      instructor who owns no course. */
  lemma DistinctAtMostTotal(students: map<UserId, set<CourseId>>, courses: map<CourseId, Course>,
                            i: UserId)
    ensures DistinctStudents(students, courses, i) <= TotalStudents(students, courses, i)
    ensures (forall c :: c in courses ==> courses[c].instructor != i) ==>
              TotalStudents(students, courses, i) == 0 && DistinctStudents(students, courses, i) == 0
  {
    var pairs := OwnedMemberships(students, courses, i);
    var distinct := set s | s in students && TakesCourseOf(students, courses, s, i);
    assert distinct == set p | p in pairs :: p.0 by {
      forall s | s in distinct ensures s in set p | p in pairs :: p.0 {
        var c :| c in students[s] && c in courses && courses[c].instructor == i;
        assert (s, c) in pairs;
      }
    }
    FirstsCard(pairs);
    if forall c :: c in courses ==> courses[c].instructor != i {
      assert pairs == {};
      assert distinct == {};
    }
  }

  /** The two counts differ: one student enrolled in two courses of the same
      instructor is one distinct student but two for total_students. */
  lemma TotalCountsRepeatedStudents(c1: Course, c2: Course)
    requires c1.instructor == c2.instructor
    ensures var students := map[7 := {1, 2}];
            var courses := map[1 := c1, 2 := c2];
            TotalStudents(students, courses, c1.instructor) == 2 &&
            DistinctStudents(students, courses, c1.instructor) == 1
  {
    var students := map[7 := {1, 2}];
    var courses := map[1 := c1, 2 := c2];
    var i := c1.instructor;
    assert OwnedMemberships(students, courses, i) == {(7, 1), (7, 2)} by {
      assert (7, 1) in OwnedMemberships(students, courses, i);
      assert (7, 2) in OwnedMemberships(students, courses, i);
    }
    assert TakesCourseOf(students, courses, 7, i) by {
      assert 1 in students[7];
    }
    assert (set s | s in students && TakesCourseOf(students, courses, s, i)) == {7};
  }
}
