/** The persisted state of courses/models.py as one value: every table is a
    map or a set, so the unique_together constraints hold by construction
    (a LessonProgress row per (student, lesson) key, an Enrollment per
    (student, course) element), and the foreign keys are the invariant
    Consistent. */
module Schema {
  import opened Common
  import opened Accounts
  import opened Catalog
  import opened Progress

  /** The editable columns of an Instructor row. */
  datatype InstructorInfo = InstructorInfo(bio: string, specialization: string)

  datatype Db = Db(
    users: map<UserId, Account>,                 // CustomUser rows
    nextUserId: UserId,                          // the next auto-increment user id
    profiles: set<UserId>,                       // UserProfile rows, one-to-one with users
    students: map<UserId, set<CourseId>>,        // Student rows and their enrolled_courses
    instructors: map<UserId, InstructorInfo>,    // Instructor rows
    courses: map<CourseId, Course>,              // Course rows
    lessons: map<LessonId, CourseId>,            // Lesson rows, by their course
    progress: map<(UserId, LessonId), bool>,     // LessonProgress rows and their completed flag
    enrollments: set<(UserId, CourseId)>)        // Enrollment rows

  /** Every foreign key points at an existing row, usernames are unique, every
      user has its profile, and user ids stay below the auto-increment counter. */
  ghost predicate Consistent(db: Db) {
    (forall u :: u in db.users ==> u < db.nextUserId) &&
    (forall u, v :: u in db.users && v in db.users && db.users[u].username == db.users[v].username ==> u == v) &&
    db.profiles == db.users.Keys &&
    db.students.Keys <= db.users.Keys &&
    db.instructors.Keys <= db.users.Keys &&
    (forall s :: s in db.students ==> db.students[s] <= db.courses.Keys) &&
    (forall c :: c in db.courses ==> db.courses[c].instructor in db.instructors) &&
    (forall l :: l in db.lessons ==> db.lessons[l] in db.courses) &&
    (forall k :: k in db.progress ==> k.0 in db.students && k.1 in db.lessons) &&
    (forall e :: e in db.enrollments ==> e.0 in db.students && e.1 in db.courses)
  }

  /** The post_save signal pair of CustomUser: create_user_profile adds a
      profile only for a newly created user; save_user_profile only re-saves
      an existing profile, which changes no modelled column. */
  function PostSave(profiles: set<UserId>, u: UserId, created: bool): set<UserId> {
    if created then profiles + {u} else profiles
  }

  /** Creating a user adds exactly one profile; saving an existing user adds none. */
  lemma PostSaveProfileCount(profiles: set<UserId>, u: UserId)
    requires u !in profiles
    ensures |PostSave(profiles, u, true)| == |profiles| + 1
    ensures u in PostSave(profiles, u, true)
    ensures PostSave(profiles, u, false) == profiles
  {
  }

  /** Inserting a CustomUser row with the next auto-increment id; the
      post_save signal creates its profile in the same step. */
  function AddUser(db: Db, a: Account): Db {
    var id := db.nextUserId;
    db.(users := db.users[id := a],
        nextUserId := id + 1,
        profiles := PostSave(db.profiles, id, true))
  }

  /** A user with a fresh username keeps the foreign keys, and its id was unused. */
  lemma AddUserKeepsConsistent(db: Db, a: Account)
    requires Consistent(db)
    requires forall u :: u in db.users ==> db.users[u].username != a.username
    ensures db.nextUserId !in db.users && db.nextUserId !in db.profiles
    ensures Consistent(AddUser(db, a))
  {
    var d := AddUser(db, a);
    var id := db.nextUserId;
    forall u, v | u in d.users && v in d.users && d.users[u].username == d.users[v].username
      ensures u == v
    {
      if u != id && v != id {
        assert db.users[u].username == db.users[v].username;
      }
    }
  }

  /** A new Student row with no enrolled course keeps the foreign keys. */
  lemma AddStudentKeepsConsistent(db: Db, u: UserId)
    requires Consistent(db) && u in db.users && u !in db.students
    ensures Consistent(db.(students := db.students[u := {}]))
  {
  }

  /** A new Instructor row keeps the foreign keys. */
  lemma AddInstructorKeepsConsistent(db: Db, u: UserId, info: InstructorInfo)
    requires Consistent(db) && u in db.users
    ensures Consistent(db.(instructors := db.instructors[u := info]))
  {
  }

  /** Rewriting one course keeps the foreign keys when its owner is an instructor. */
  lemma ReplaceCourseKeepsConsistent(db: Db, c: CourseId, course: Course)
    requires Consistent(db)
    requires c in db.courses && course.instructor in db.instructors
    ensures Consistent(db.(courses := db.courses[c := course]))
  {
    var d := db.(courses := db.courses[c := course]);
    assert d.courses.Keys == db.courses.Keys;
  }

  /** Course.delete(): the CASCADE foreign keys remove the course's lessons,
      the progress rows of those lessons, its Enrollment rows and its
      enrolled_courses memberships. */
  function DeleteCourse(db: Db, c: CourseId): Db {
    var gone := CourseLessons(db.lessons, c);
    db.(courses := db.courses - {c},
        lessons := db.lessons - gone,
        progress := map k | k in db.progress && k.1 !in gone :: db.progress[k],
        students := map s | s in db.students :: db.students[s] - {c},
        enrollments := set e | e in db.enrollments && e.1 != c)
  }

  /** The cascade keeps every Student row and leaves it only existing courses. */
  lemma DeleteCourseStudentsValid(db: Db, c: CourseId)
    requires Consistent(db)
    ensures var d := DeleteCourse(db, c);
            d.students.Keys == db.students.Keys &&
            forall s :: s in d.students ==> d.students[s] <= d.courses.Keys
  {
    var d := DeleteCourse(db, c);
    forall s | s in d.students ensures d.students[s] <= d.courses.Keys {
      assert d.students[s] == db.students[s] - {c};
    }
  }

  /** After the cascade every lesson and progress row points at existing rows. */
  lemma DeleteCourseLessonsValid(db: Db, c: CourseId)
    requires Consistent(db)
    ensures var d := DeleteCourse(db, c);
            (forall l :: l in d.lessons ==> d.lessons[l] in d.courses) &&
            (forall k :: k in d.progress ==> k.0 in d.students && k.1 in d.lessons)
  {
    var d := DeleteCourse(db, c);
    var gone := CourseLessons(db.lessons, c);
    forall l | l in d.lessons ensures d.lessons[l] in d.courses {
      assert l !in gone;
    }
    forall k | k in d.progress ensures k.0 in d.students && k.1 in d.lessons {
      assert k in db.progress && k.1 !in gone;
    }
  }

  /** The cascade keeps the foreign keys. */
  lemma DeleteCourseKeepsConsistent(db: Db, c: CourseId)
    requires Consistent(db)
    ensures Consistent(DeleteCourse(db, c))
  {
    DeleteCourseStudentsValid(db, c);
    DeleteCourseLessonsValid(db, c);
  }

  /** After the cascade nothing refers to the deleted course. */
  lemma DeleteCourseLeavesNoReference(db: Db, c: CourseId)
    requires Consistent(db)
    ensures var d := DeleteCourse(db, c);
            c !in d.courses &&
            CourseLessons(d.lessons, c) == {} &&
            (forall k :: k in d.progress ==> k.1 in d.lessons && d.lessons[k.1] != c) &&
            (forall s :: s in d.students ==> c !in d.students[s]) &&
            (forall e :: e in d.enrollments ==> e.1 != c)
  {
  }

  /** The cascade removes exactly the rows that refer to the course. */
  lemma DeleteCourseRemovesOnlyReferences(db: Db, c: CourseId)
    requires Consistent(db)
    ensures var d := DeleteCourse(db, c);
            d.courses == db.courses - {c} &&
            (forall l :: l in d.lessons <==> l in db.lessons && db.lessons[l] != c) &&
            (forall l :: l in d.lessons ==> d.lessons[l] == db.lessons[l]) &&
            (forall k :: k in d.progress <==> k in db.progress && db.lessons[k.1] != c) &&
            (forall k :: k in d.progress ==> d.progress[k] == db.progress[k]) &&
            (forall e :: e in d.enrollments <==> e in db.enrollments && e.1 != c)
  {
  }

  /** Nothing that refers to the deleted course survives, every other row is
      kept as it was, and the foreign keys still hold. */
  lemma DeleteCourseCascades(db: Db, c: CourseId)
    requires Consistent(db)
    ensures var d := DeleteCourse(db, c);
            Consistent(d) &&
            c !in d.courses &&
            CourseLessons(d.lessons, c) == {} &&
            (forall k :: k in d.progress ==> k.1 in d.lessons && d.lessons[k.1] != c) &&
            (forall s :: s in d.students ==> c !in d.students[s]) &&
            (forall e :: e in d.enrollments ==> e.1 != c)
    ensures var d := DeleteCourse(db, c);
            d.courses == db.courses - {c} &&
            (forall l :: l in d.lessons <==> l in db.lessons && db.lessons[l] != c) &&
            (forall l :: l in d.lessons ==> d.lessons[l] == db.lessons[l]) &&
            (forall k :: k in d.progress <==> k in db.progress && db.lessons[k.1] != c) &&
            (forall k :: k in d.progress ==> d.progress[k] == db.progress[k]) &&
            (forall e :: e in d.enrollments <==> e in db.enrollments && e.1 != c)
    ensures var d := DeleteCourse(db, c);
            (forall s :: s in d.students <==> s in db.students) &&
            (forall s :: s in d.students ==> d.students[s] == db.students[s] - {c}) &&
            d.nextUserId == db.nextUserId &&
            d.users == db.users && d.profiles == db.profiles && d.instructors == db.instructors
  {
    DeleteCourseKeepsConsistent(db, c);
    DeleteCourseLeavesNoReference(db, c);
    DeleteCourseRemovesOnlyReferences(db, c);
  }

  /** Deleting one course changes neither the lesson count nor any student's
      completed count of any other course. */
  lemma DeleteCourseKeepsOtherCounts(db: Db, c: CourseId, other: CourseId, s: UserId)
    requires Consistent(db)
    requires other != c
    ensures var d := DeleteCourse(db, c);
            TotalLessons(d.lessons, other) == TotalLessons(db.lessons, other) &&
            CompletedCount(d.progress, d.lessons, s, other) == CompletedCount(db.progress, db.lessons, s, other)
  {
    var d := DeleteCourse(db, c);
    assert CourseLessons(d.lessons, other) == CourseLessons(db.lessons, other);
    assert CompletedRows(d.progress, d.lessons, s, other) == CompletedRows(db.progress, db.lessons, s, other);
  }
}
