/** What the handlers of courses/views.py promise, stated over all states and
    requests: error paths change nothing, successful steps change only what
    they name, repeated requests are no-ops, completion is monotonic, the
    shown progress is bounded, and every handler keeps the foreign keys. */
module Laws {
  import opened Common
  import opened Accounts
  import Access
  import opened Catalog
  import opened Progress
  import opened Schema
  import opened Handlers

  // ---------------------------------------------------------------------------
  // enroll_course

  /** An anonymous visitor is sent to login, a missing course is not found, a
      caller without a Student row is refused, and every other request
      succeeds. A request that fails leaves the state as it was; a successful
      one adds the course to the caller's set and to no one else's. */
  lemma EnrollEffect(db: Db, caller: Option<UserId>, c: CourseId)
    ensures var r := EnrollCourse(db, caller, c);
            (r.outcome == LoginRedirect <==> caller.None?) &&
            (r.outcome == NotFound <==> caller.Some? && c !in db.courses) &&
            (r.outcome == Ok <==> caller.Some? && c in db.courses && caller.value in db.students) &&
            (r.outcome == NotStudent <==> caller.Some? && c in db.courses && caller.value !in db.students) &&
            (r.outcome != Ok ==> r.db == db) &&
            (r.outcome == Ok ==>
               caller.Some? && c in r.db.students[caller.value] &&
               r.db.students[caller.value] == db.students[caller.value] + {c} &&
               r.db.students.Keys == db.students.Keys &&
               (forall s :: s in db.students && s != caller.value ==> r.db.students[s] == db.students[s]) &&
               r.db == db.(students := r.db.students))
  {
  }

  /** Enrolling twice is enrolling once. */
  lemma EnrollIdempotent(db: Db, caller: Option<UserId>, c: CourseId)
    ensures var once := EnrollCourse(db, caller, c);
            EnrollCourse(once.db, caller, c) == once
  {
    var once := EnrollCourse(db, caller, c);
    if once.outcome == Ok {
      var u := caller.value;
      assert once.db.students[u := once.db.students[u] + {c}] == once.db.students;
    }
  }

  // ---------------------------------------------------------------------------
  // mark_lesson_complete

  /** An anonymous visitor is sent to login, a missing lesson is not found, and
      a request succeeds exactly when a student enrolled in the lesson's course
      makes it. A refused request leaves every progress row alone; a successful
      one leaves the (caller, lesson) row completed, touches no other row, and
      never clears a completed flag. */
  lemma MarkLessonCompleteEffect(db: Db, caller: Option<UserId>, l: LessonId)
    ensures var r := MarkLessonComplete(db, caller, l);
            (r.outcome == LoginRedirect <==> caller.None?) &&
            (r.outcome == NotFound <==> caller.Some? && l !in db.lessons) &&
            (r.outcome == NotStudent <==> caller.Some? && l in db.lessons && caller.value !in db.students) &&
            (r.outcome == Ok <==>
               caller.Some? && l in db.lessons && caller.value in db.students &&
               db.lessons[l] in db.students[caller.value]) &&
            (r.outcome != Ok ==> r.db == db) &&
            (r.outcome == NotEnrolled <==>
               caller.Some? && l in db.lessons && caller.value in db.students &&
               db.lessons[l] !in db.students[caller.value]) &&
            (r.outcome == Ok ==>
               caller.Some? && (caller.value, l) in r.db.progress && r.db.progress[(caller.value, l)] &&
               r.db.progress.Keys == db.progress.Keys + {(caller.value, l)} &&
               (forall k :: k in db.progress && k != (caller.value, l) ==> r.db.progress[k] == db.progress[k]) &&
               r.db == db.(progress := r.db.progress)) &&
            (forall k :: k in db.progress && db.progress[k] ==> k in r.db.progress && r.db.progress[k])
  {
  }

  /** Marking the same lesson twice is marking it once. */
  lemma MarkLessonCompleteIdempotent(db: Db, caller: Option<UserId>, l: LessonId)
    ensures var once := MarkLessonComplete(db, caller, l);
            MarkLessonComplete(once.db, caller, l) == once
  {
    var once := MarkLessonComplete(db, caller, l);
    if once.outcome == Ok {
      assert once.db.progress[(caller.value, l) := true] == once.db.progress;
    }
  }

  // ---------------------------------------------------------------------------
  // course_detail

  /** The shown percentage is 0 for a visitor who is not an enrolled student
      and for a course without lessons, always lies in [0, 100], and is 100
      exactly when an enrolled student has completed every lesson of a course
      that has some. */
  lemma ShownProgressBounds(db: Db, caller: Option<UserId>, c: CourseId)
    ensures !(caller.Some? && caller.value in db.students && c in db.students[caller.value]) ==>
              ShownProgress(db, caller, c) == 0
    ensures TotalLessons(db.lessons, c) == 0 ==> ShownProgress(db, caller, c) == 0
    ensures 0 <= ShownProgress(db, caller, c) <= 100
    ensures ShownProgress(db, caller, c) == 100 <==>
              caller.Some? && caller.value in db.students && c in db.students[caller.value] &&
              TotalLessons(db.lessons, c) > 0 &&
              forall l :: l in db.lessons && db.lessons[l] == c ==> Done(db.progress, caller.value, l)
  {
    if caller.Some? {
      var s := caller.value;
      CompletedCountBound(db.progress, db.lessons, s, c);
      PercentageBounds(CompletedCount(db.progress, db.lessons, s, c), TotalLessons(db.lessons, c));
    }
  }

  /** Marking a lesson complete never lowers the progress any visitor sees on any course. */
  lemma MarkLessonCompleteNeverLowersProgress(db: Db, caller: Option<UserId>, l: LessonId,
                                              viewer: Option<UserId>, c: CourseId)
    ensures ShownProgress(db, viewer, c) <= ShownProgress(MarkLessonComplete(db, caller, l).db, viewer, c)
  {
    var after := MarkLessonComplete(db, caller, l).db;
    if viewer.Some? && viewer.value in db.students && c in db.students[viewer.value] {
      var s := viewer.value;
      CompletedCountGrows(db.progress, after.progress, db.lessons, s, c);
      PercentageMonotone(CompletedCount(db.progress, db.lessons, s, c),
                         CompletedCount(after.progress, after.lessons, s, c),
                         TotalLessons(db.lessons, c));
    }
  }

  /** Enrolling never lowers the progress any visitor sees on any course. */
  lemma EnrollNeverLowersProgress(db: Db, caller: Option<UserId>, c: CourseId,
                                  viewer: Option<UserId>, c': CourseId)
    ensures ShownProgress(db, viewer, c') <= ShownProgress(EnrollCourse(db, caller, c).db, viewer, c')
  {
    ShownProgressBounds(EnrollCourse(db, caller, c).db, viewer, c');
  }

  /** A student enrolls in a course of three lessons and sees 0; after
      completing two lessons, 66 (two thirds, truncated); marking the second
      lesson again changes nothing; after the third, 100. */
  lemma ThreeLessonWalkthrough(db: Db, s: UserId, c: CourseId, l1: LessonId, l2: LessonId, l3: LessonId)
    requires c in db.courses && s in db.students
    requires CourseLessons(db.lessons, c) == {l1, l2, l3} && l1 != l2 && l2 != l3 && l1 != l3
    requires forall l :: l in db.lessons && db.lessons[l] == c ==> (s, l) !in db.progress
    ensures var d1 := EnrollCourse(db, Some(s), c).db;
            var d2 := MarkLessonComplete(d1, Some(s), l1).db;
            var d3 := MarkLessonComplete(d2, Some(s), l2).db;
            var d4 := MarkLessonComplete(d3, Some(s), l2).db;
            var d5 := MarkLessonComplete(d4, Some(s), l3).db;
            ShownProgress(d1, Some(s), c) == 0 &&
            ShownProgress(d3, Some(s), c) == 66 &&
            d4 == d3 &&
            ShownProgress(d5, Some(s), c) == 100
  {
    var d1 := EnrollCourse(db, Some(s), c).db;
    assert c in d1.students[s];
    assert l1 in CourseLessons(db.lessons, c) && l2 in CourseLessons(db.lessons, c) && l3 in CourseLessons(db.lessons, c);
    assert CompletedRows(d1.progress, d1.lessons, s, c) == {};
    var d2 := MarkLessonComplete(d1, Some(s), l1).db;
    var d3 := MarkLessonComplete(d2, Some(s), l2).db;
    assert CompletedRows(d3.progress, d3.lessons, s, c) == {(s, l1), (s, l2)};
    MarkLessonCompleteIdempotent(d2, Some(s), l2);
    var d5 := MarkLessonComplete(d3, Some(s), l3).db;
    assert d5.lessons == db.lessons;
    forall l | l in db.lessons && db.lessons[l] == c ensures Done(d5.progress, s, l) {
      assert l in CourseLessons(db.lessons, c);
    }
    ShownProgressBounds(d5, Some(s), c);
  }

  // ---------------------------------------------------------------------------
  // admin_course_edit and edit_course

  /** Only an admin's request reaches the course; it succeeds exactly when the
      course exists and the posted instructor is a known one, and then
      rewrites that one course by the admin rules and nothing else. */
  lemma AdminCourseEditEffect(db: Db, caller: Option<UserId>, c: CourseId, f: EditForm)
    requires caller.Some? ==> caller.value in db.users
    ensures var r := AdminCourseEdit(db, caller, c, f);
            (r.outcome == LoginRedirect <==> caller.None?) &&
            (r.outcome == Denied <==> caller.Some? && !IsAdmin(db.users[caller.value])) &&
            (r.outcome == NotFound <==> caller.Some? && IsAdmin(db.users[caller.value]) && c !in db.courses) &&
            (r.outcome == UpdateFailed <==>
               caller.Some? && IsAdmin(db.users[caller.value]) && c in db.courses &&
               (f.instructor.None? || f.instructor.value !in db.instructors)) &&
            (r.outcome == Ok <==>
               caller.Some? && IsAdmin(db.users[caller.value]) && c in db.courses &&
               f.instructor.Some? && f.instructor.value in db.instructors) &&
            (r.outcome != Ok ==> r.db == db) &&
            (r.outcome == Ok ==>
               c in db.courses && f.instructor.Some? && f.instructor.value in db.instructors &&
               r.db == db.(courses := db.courses[c := AdminEdit(db.courses[c], f, f.instructor.value)]))
  {
  }

  /** edit_course succeeds exactly for an instructor editing a course of their
      own, rewrites it by the instructor rules (keeping its owner and its
      active and featured flags), and changes no other course. */
  lemma EditCourseOwnerOnly(db: Db, caller: Option<UserId>, c: CourseId, f: EditForm)
    ensures var r := EditCourse(db, caller, c, f);
            (r.outcome == LoginRedirect <==> caller.None?) &&
            (r.outcome == NotInstructor <==> caller.Some? && caller.value !in db.instructors) &&
            (r.outcome == NotFound <==>
               caller.Some? && caller.value in db.instructors &&
               (c !in db.courses || db.courses[c].instructor != caller.value)) &&
            (r.outcome == Ok <==>
               caller.Some? && caller.value in db.instructors &&
               c in db.courses && db.courses[c].instructor == caller.value) &&
            (r.outcome != Ok ==> r.db == db) &&
            (caller.Some? && c in db.courses && db.courses[c].instructor != caller.value ==> r.db == db) &&
            (r.outcome == Ok ==>
               caller.Some? && caller.value in db.instructors &&
               c in db.courses && db.courses[c].instructor == caller.value &&
               r.db.courses.Keys == db.courses.Keys &&
               r.db.courses[c] == InstructorEdit(db.courses[c], f) &&
               r.db.courses[c].instructor == caller.value &&
               r.db.courses[c].isActive == db.courses[c].isActive &&
               r.db.courses[c].isFeatured == db.courses[c].isFeatured &&
               (forall c' :: c' in db.courses && c' != c ==> r.db.courses[c'] == db.courses[c']) &&
               r.db == db.(courses := r.db.courses))
  {
  }

  // ---------------------------------------------------------------------------
  // admin_course_delete

  /** Only an admin's request reaches the course; it succeeds exactly when the
      course exists, and then the state is the cascaded delete. A refused
      request changes nothing. */
  lemma AdminCourseDeleteEffect(db: Db, caller: Option<UserId>, c: CourseId)
    requires caller.Some? ==> caller.value in db.users
    ensures var r := AdminCourseDelete(db, caller, c);
            (r.outcome == LoginRedirect <==> caller.None?) &&
            (r.outcome == Denied <==> caller.Some? && !IsAdmin(db.users[caller.value])) &&
            (r.outcome == NotFound <==> caller.Some? && IsAdmin(db.users[caller.value]) && c !in db.courses) &&
            (r.outcome == Ok <==> caller.Some? && IsAdmin(db.users[caller.value]) && c in db.courses) &&
            (r.outcome != Ok ==> r.db == db) &&
            (r.outcome == Ok ==> r.db == DeleteCourse(db, c))
  {
  }

  /** After a course is deleted, enrolling in it and marking any of its former
      lessons complete both answer not-found. */
  lemma DeletedCourseNotFound(db: Db, caller: Option<UserId>, c: CourseId, u: UserId, l: LessonId)
    requires Consistent(db)
    requires caller.Some? ==> caller.value in db.users
    requires AdminCourseDelete(db, caller, c).outcome == Ok
    requires l in db.lessons && db.lessons[l] == c
    ensures var after := AdminCourseDelete(db, caller, c).db;
            EnrollCourse(after, Some(u), c).outcome == NotFound &&
            MarkLessonComplete(after, Some(u), l).outcome == NotFound
  {
    DeleteCourseCascades(db, c);
  }

  // ---------------------------------------------------------------------------
  // signup and become_instructor

  /** Mismatched passwords create nothing, nor does an empty or taken
      username; otherwise the account is created. */
  lemma SignupEffect(db: Db, username: string, password1: string, password2: string, accountType: string)
    ensures var r := Signup(db, username, password1, password2, accountType);
            (password1 != password2 ==> r == Step(PasswordMismatch, db)) &&
            (r.outcome != Ok ==> r.db == db) &&
            (r.outcome == Ok <==>
               password1 == password2 && username != "" &&
               forall u :: u in db.users ==> db.users[u].username != username) &&
            (r.outcome == Ok ==> r.db == CreateAccount(db, username, accountType))
  {
  }

  /** Creating an account adds exactly one user, with the default role and no
      superuser flag, exactly one profile, and the Student or Instructor row
      that the account type asks for; no other table changes. */
  lemma CreateAccountEffect(db: Db, username: string, accountType: string)
    requires Consistent(db)
    ensures var d := CreateAccount(db, username, accountType);
            var id := db.nextUserId;
            id !in db.users &&
            d.users == db.users[id := Account(username, DefaultRole, false)] &&
            IsStudent(d.users[id]) && !IsAdmin(d.users[id]) &&
            d.profiles == db.profiles + {id} && |d.profiles| == |db.profiles| + 1 &&
            (id in d.students <==> accountType == "student") &&
            (id in d.instructors <==> accountType == "instructor") &&
            d.nextUserId == id + 1 &&
            d.students.Keys <= db.students.Keys + {id} &&
            d.instructors.Keys <= db.instructors.Keys + {id} &&
            (forall s :: s in db.students ==> s in d.students && d.students[s] == db.students[s]) &&
            (forall i :: i in db.instructors ==> i in d.instructors && d.instructors[i] == db.instructors[i]) &&
            d.courses == db.courses && d.lessons == db.lessons &&
            d.progress == db.progress && d.enrollments == db.enrollments
  {
    var id := db.nextUserId;
    var created := AddUser(db, Account(username, DefaultRole, false));
    assert id !in db.users && id !in db.profiles && id !in db.students && id !in db.instructors;
    PostSaveProfileCount(db.profiles, id);
    CreateAccountKeepsRows(db, username, accountType);
    if accountType == "student" {
      assert CreateAccount(db, username, accountType) == created.(students := created.students[id := {}]);
    } else if accountType == "instructor" {
      assert CreateAccount(db, username, accountType) == created.(instructors := created.instructors[id := InstructorInfo("", "")]);
    } else {
      assert CreateAccount(db, username, accountType) == created;
    }
  }

  /** Creating an account keeps every existing Student and Instructor row as it was. */
  lemma CreateAccountKeepsRows(db: Db, username: string, accountType: string)
    requires db.nextUserId !in db.students && db.nextUserId !in db.instructors
    ensures var d := CreateAccount(db, username, accountType);
            (forall s :: s in db.students ==> s in d.students && d.students[s] == db.students[s]) &&
            (forall i :: i in db.instructors ==> i in d.instructors && d.instructors[i] == db.instructors[i])
  {
  }

  /** A caller who already has an Instructor row is told so and nothing
      changes; a missing bio or specialization creates nothing; otherwise the
      request succeeds and adds only the caller's Instructor row, with the
      posted columns, after which a repeat is told the caller already is one.
      The role column is left as it was, so the role-based decision of
      instructor_required does not change; the instructor pages test only
      for the Instructor row, so they now admit the caller. */
  lemma BecomeInstructorEffect(db: Db, caller: Option<UserId>, bio: Option<string>, specialization: Option<string>)
    requires caller.Some? ==> caller.value in db.users
    ensures var r := BecomeInstructor(db, caller, bio, specialization);
            (r.outcome == LoginRedirect <==> caller.None?) &&
            (caller.Some? && caller.value in db.instructors ==> r == Step(AlreadyInstructor, db)) &&
            (r.outcome == CreateFailed <==>
               caller.Some? && caller.value !in db.instructors && (bio.None? || specialization.None?)) &&
            (r.outcome == Ok <==>
               caller.Some? && caller.value !in db.instructors && bio.Some? && specialization.Some?) &&
            (r.outcome != Ok ==> r.db == db) &&
            (r.outcome == Ok ==>
               caller.Some? && caller.value !in db.instructors && caller.value in r.db.instructors &&
               r.db.instructors == db.instructors[caller.value := InstructorInfo(bio.value, specialization.value)] &&
               r.db == db.(instructors := r.db.instructors) &&
               BecomeInstructor(r.db, caller, bio, specialization) == Step(AlreadyInstructor, r.db) &&
               Access.InstructorGate(Identity(r.db, caller)) == Access.InstructorGate(Identity(db, caller)))
  {
  }

  // ---------------------------------------------------------------------------
  // Foreign keys

  lemma EnrollKeepsConsistent(db: Db, caller: Option<UserId>, c: CourseId)
    requires Consistent(db)
    ensures Consistent(EnrollCourse(db, caller, c).db)
  {
  }

  lemma MarkLessonCompleteKeepsConsistent(db: Db, caller: Option<UserId>, l: LessonId)
    requires Consistent(db)
    ensures Consistent(MarkLessonComplete(db, caller, l).db)
  {
  }

  lemma AdminCourseEditKeepsConsistent(db: Db, caller: Option<UserId>, c: CourseId, f: EditForm)
    requires Consistent(db)
    requires caller.Some? ==> caller.value in db.users
    ensures Consistent(AdminCourseEdit(db, caller, c, f).db)
  {
    var r := AdminCourseEdit(db, caller, c, f);
    if r.outcome == Ok {
      ReplaceCourseKeepsConsistent(db, c, AdminEdit(db.courses[c], f, f.instructor.value));
    }
  }

  lemma EditCourseKeepsConsistent(db: Db, caller: Option<UserId>, c: CourseId, f: EditForm)
    requires Consistent(db)
    ensures Consistent(EditCourse(db, caller, c, f).db)
  {
    var r := EditCourse(db, caller, c, f);
    if r.outcome == Ok {
      ReplaceCourseKeepsConsistent(db, c, InstructorEdit(db.courses[c], f));
    }
  }

  lemma AdminCourseDeleteKeepsConsistent(db: Db, caller: Option<UserId>, c: CourseId)
    requires Consistent(db)
    requires caller.Some? ==> caller.value in db.users
    ensures Consistent(AdminCourseDelete(db, caller, c).db)
  {
    if AdminCourseDelete(db, caller, c).outcome == Ok {
      DeleteCourseCascades(db, c);
    }
  }

  lemma CreateAccountKeepsConsistent(db: Db, username: string, accountType: string)
    requires Consistent(db)
    requires forall u :: u in db.users ==> db.users[u].username != username
    ensures Consistent(CreateAccount(db, username, accountType))
  {
    var id := db.nextUserId;
    var created := AddUser(db, Account(username, DefaultRole, false));
    AddUserKeepsConsistent(db, Account(username, DefaultRole, false));
    if accountType == "student" {
      AddStudentKeepsConsistent(created, id);
    } else if accountType == "instructor" {
      AddInstructorKeepsConsistent(created, id, InstructorInfo("", ""));
    }
  }

  lemma SignupKeepsConsistent(db: Db, username: string, password1: string, password2: string, accountType: string)
    requires Consistent(db)
    ensures Consistent(Signup(db, username, password1, password2, accountType).db)
  {
    if Signup(db, username, password1, password2, accountType).outcome == Ok {
      CreateAccountKeepsConsistent(db, username, accountType);
    }
  }

  lemma BecomeInstructorKeepsConsistent(db: Db, caller: Option<UserId>, bio: Option<string>, specialization: Option<string>)
    requires Consistent(db)
    requires caller.Some? ==> caller.value in db.users
    ensures Consistent(BecomeInstructor(db, caller, bio, specialization).db)
  {
  }
}
