/** The request handlers of courses/views.py that change or read the
    enrollment and progress state, each as a function from the state before
    the request to the outcome and the state after it. The class Store
    (store.dfy) performs the same steps in place and is proved against these. */
module Handlers {
  import opened Common
  import opened Accounts
  import Access
  import opened Catalog
  import opened Progress
  import opened Schema

  /** How a request ends: success, or the error path it was sent down
      (login redirect, 403, 404, or a flashed error message). */
  datatype Outcome =
    | Ok
    | LoginRedirect       // @login_required or a decorator sent the visitor to the login page
    | Denied              // a decorator answered 403
    | NotFound            // get_object_or_404 found no row
    | NotStudent          // "Only students can ..."
    | NotEnrolled         // "You must be enrolled in the course ..."
    | NotInstructor       // "You are not registered as an instructor"
    | AlreadyInstructor   // "You are already an instructor"
    | PasswordMismatch    // "Passwords don't match"
    | CreateFailed        // a create() raised and the error was flashed
    | UpdateFailed        // an update raised and the error was flashed

  datatype Step = Step(outcome: Outcome, db: Db)

  /** request.user as the decorators see it. A signed-in caller is a stored user. */
  function Identity(db: Db, caller: Option<UserId>): Access.Identity
    requires caller.Some? ==> caller.value in db.users
  {
    if caller.None? then Access.Anonymous else Access.Authenticated(db.users[caller.value])
  }

  /** The outcome of a gate that did not admit the request. */
  function Refusal(g: Access.Gate): Outcome {
    if g.RedirectToLogin? then LoginRedirect else Denied
  }

  // ---------------------------------------------------------------------------
  // Enrollment and lesson progress

  /** enroll_course: login required, the course must exist, and only a user
      with a Student row may enroll; enrolling adds the course to the
      student's enrolled_courses (a set, so adding it again is a no-op). */
  function EnrollCourse(db: Db, caller: Option<UserId>, c: CourseId): Step {
    if caller.None? then Step(LoginRedirect, db)
    else if c !in db.courses then Step(NotFound, db)
    else if caller.value !in db.students then Step(NotStudent, db)
    else
      var u := caller.value;
      Step(Ok, db.(students := db.students[u := db.students[u] + {c}]))
  }

  /** mark_lesson_complete: login required, the lesson must exist, the caller
      must have a Student row and be enrolled in the lesson's course; then the
      (student, lesson) progress row is created completed, or its flag set. */
  function MarkLessonComplete(db: Db, caller: Option<UserId>, l: LessonId): Step {
    if caller.None? then Step(LoginRedirect, db)
    else if l !in db.lessons then Step(NotFound, db)
    else if caller.value !in db.students then Step(NotStudent, db)
    else if db.lessons[l] !in db.students[caller.value] then Step(NotEnrolled, db)
    else Step(Ok, db.(progress := db.progress[(caller.value, l) := true]))
  }

  /** The progress_percentage that course_detail shows: 0 unless the visitor
      is signed in with a Student row enrolled in the course. */
  function ShownProgress(db: Db, caller: Option<UserId>, c: CourseId): int {
    if caller.Some? && caller.value in db.students && c in db.students[caller.value]
    then Percentage(CompletedCount(db.progress, db.lessons, caller.value, c), TotalLessons(db.lessons, c))
    else 0
  }

  // ---------------------------------------------------------------------------
  // Course administration

  /** admin_course_edit on POST: login and admin_required gates, 404 for a
      missing course, and Instructor.objects.get raising (caught, nothing
      saved) when the posted instructor is absent or unknown. */
  function AdminCourseEdit(db: Db, caller: Option<UserId>, c: CourseId, f: EditForm): Step
    requires caller.Some? ==> caller.value in db.users
  {
    var gate := Access.AdminGate(Identity(db, caller));
    if caller.None? then Step(LoginRedirect, db)
    else if gate != Access.Admit then Step(Refusal(gate), db)
    else if c !in db.courses then Step(NotFound, db)
    else if f.instructor.None? || f.instructor.value !in db.instructors then Step(UpdateFailed, db)
    else Step(Ok, db.(courses := db.courses[c := AdminEdit(db.courses[c], f, f.instructor.value)]))
  }

  /** edit_course on POST: login required, the caller needs an Instructor row,
      and the course is looked up among the caller's own courses (404 otherwise). */
  function EditCourse(db: Db, caller: Option<UserId>, c: CourseId, f: EditForm): Step {
    if caller.None? then Step(LoginRedirect, db)
    else if caller.value !in db.instructors then Step(NotInstructor, db)
    else if c !in db.courses || db.courses[c].instructor != caller.value then Step(NotFound, db)
    else Step(Ok, db.(courses := db.courses[c := InstructorEdit(db.courses[c], f)]))
  }

  /** admin_course_delete on POST: the gates, 404 for a missing course, then the cascade. */
  function AdminCourseDelete(db: Db, caller: Option<UserId>, c: CourseId): Step
    requires caller.Some? ==> caller.value in db.users
  {
    var gate := Access.AdminGate(Identity(db, caller));
    if caller.None? then Step(LoginRedirect, db)
    else if gate != Access.Admit then Step(Refusal(gate), db)
    else if c !in db.courses then Step(NotFound, db)
    else Step(Ok, DeleteCourse(db, c))
  }

  // ---------------------------------------------------------------------------
  // Accounts

  /** signup on POST: mismatched passwords stop before anything is created;
      create_user refuses an empty or taken username; otherwise the account
      is created. */
  function Signup(db: Db, username: string, password1: string, password2: string, accountType: string): Step {
    if password1 != password2 then Step(PasswordMismatch, db)
    else if username == "" || exists u :: u in db.users && db.users[u].username == username then Step(CreateFailed, db)
    else Step(Ok, CreateAccount(db, username, accountType))
  }

  /** The user is created with the default role (account_type does not set
      it), the post_save signal adds its profile, and account_type "student"
      or "instructor" adds the matching row with empty columns. */
  function CreateAccount(db: Db, username: string, accountType: string): Db {
    var id := db.nextUserId;
    var created := AddUser(db, Account(username, DefaultRole, false));
    if accountType == "student" then created.(students := created.students[id := {}])
    else if accountType == "instructor" then created.(instructors := created.instructors[id := InstructorInfo("", "")])
    else created
  }

  /** become_instructor on POST: a caller who already has an Instructor row is
      told so; a missing bio or specialization makes the NOT NULL insert fail;
      otherwise an Instructor row is created. The role column is not changed. */
  function BecomeInstructor(db: Db, caller: Option<UserId>, bio: Option<string>, specialization: Option<string>): Step {
    if caller.None? then Step(LoginRedirect, db)
    else if caller.value in db.instructors then Step(AlreadyInstructor, db)
    else if bio.None? || specialization.None? then Step(CreateFailed, db)
    else Step(Ok, db.(instructors := db.instructors[caller.value := InstructorInfo(bio.value, specialization.value)]))
  }
}
