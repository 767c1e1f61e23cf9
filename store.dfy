/** The database the views of courses/views.py read and write, as an object
    whose tables are fields that each handler updates in place. Every
    handler is proved to perform exactly the step its function in module
    Handlers describes, and to keep the foreign keys (Valid). */
module Persistence {
  import opened Common
  import opened Accounts
  import Access
  import opened Catalog
  import opened Progress
  import opened Schema
  import opened Handlers
  import Laws

  class Store {
    var users: map<UserId, Account>
    var nextUserId: UserId
    var profiles: set<UserId>
    var students: map<UserId, set<CourseId>>
    var instructors: map<UserId, InstructorInfo>
    var courses: map<CourseId, Course>
    var lessons: map<LessonId, CourseId>
    var progress: map<(UserId, LessonId), bool>
    var enrollments: set<(UserId, CourseId)>

    /** The tables as one value. */
    function State(): Db
      reads this
    {
      Db(users, nextUserId, profiles, students, instructors, courses, lessons, progress, enrollments)
    }

    ghost predicate Valid()
      reads this
    {
      Consistent(State())
    }

    /** An empty database. */
    constructor ()
      ensures Valid()
      ensures State() == Db(map[], 0, {}, map[], map[], map[], map[], map[], {})
    {
      users, nextUserId, profiles := map[], 0, {};
      students, instructors := map[], map[];
      courses, lessons := map[], map[];
      progress, enrollments := map[], {};
    }

    /** course_detail: 404 for a missing course, otherwise the progress
      percentage it shows, which lies in [0, 100]. */
    method CourseDetail(caller: Option<UserId>, c: CourseId) returns (shown: Option<int>)
      ensures shown.None? <==> c !in courses
      ensures shown.Some? ==> shown.value == ShownProgress(State(), caller, c) && 0 <= shown.value <= 100
    {
      if c !in courses {
        return None;
      }
      var percentage := 0;
      if caller.Some? && caller.value in students {
        var isEnrolled := c in students[caller.value];
        if isEnrolled {
          var completedCount := CompletedCount(progress, lessons, caller.value, c);
          var totalLessons := TotalLessons(lessons, c);
          if totalLessons > 0 {
            percentage := completedCount * 100 / totalLessons;
          }
        }
      }
      Laws.ShownProgressBounds(State(), caller, c);
      shown := Some(percentage);
    }

    method EnrollCourse(caller: Option<UserId>, c: CourseId) returns (o: Outcome)
      requires Valid()
      modifies this
      ensures Valid()
      ensures Step(o, State()) == Handlers.EnrollCourse(old(State()), caller, c)
    {
      if caller.None? {
        return LoginRedirect;
      }
      if c !in courses {
        return NotFound;
      }
      var u := caller.value;
      if u !in students {
        return NotStudent;
      }
      students := students[u := students[u] + {c}];
      o := Ok;
      Laws.EnrollKeepsConsistent(old(State()), caller, c);
    }

    method MarkLessonComplete(caller: Option<UserId>, l: LessonId) returns (o: Outcome)
      requires Valid()
      modifies this
      ensures Valid()
      ensures Step(o, State()) == Handlers.MarkLessonComplete(old(State()), caller, l)
    {
      if caller.None? {
        return LoginRedirect;
      }
      if l !in lessons {
        return NotFound;
      }
      var u := caller.value;
      if u !in students {
        return NotStudent;
      }
      if lessons[l] !in students[u] {
        return NotEnrolled;
      }
      // get_or_create makes the row already completed; an existing row gets
      // its flag set and is saved. Either way the row ends completed.
      var key := (u, l);
      progress := progress[key := true];
      o := Ok;
      Laws.MarkLessonCompleteKeepsConsistent(old(State()), caller, l);
    }

    method AdminCourseEdit(caller: Option<UserId>, c: CourseId, f: EditForm) returns (o: Outcome)
      requires Valid()
      requires caller.Some? ==> caller.value in users
      modifies this
      ensures Valid()
      ensures Step(o, State()) == Handlers.AdminCourseEdit(old(State()), caller, c, f)
    {
      if caller.None? {
        return LoginRedirect;
      }
      var gate := Access.AdminGate(Identity(State(), caller));
      if gate != Access.Admit {
        return Refusal(gate);
      }
      if c !in courses {
        return NotFound;
      }
      if f.instructor.None? || f.instructor.value !in instructors {
        return UpdateFailed;
      }
      var course := courses[c];
      course := course.(title := f.title.GetOr(course.title));
      course := course.(description := f.description.GetOr(course.description));
      course := course.(instructor := f.instructor.value);
      course := course.(price := f.price.GetOr(course.price));
      course := course.(isPaid := Checked(f.isPaid));
      course := course.(category := f.category.GetOr(course.category));
      course := course.(isActive := Checked(f.isActive));
      course := course.(isFeatured := Checked(f.isFeatured));
      courses := courses[c := course];
      o := Ok;
      Laws.AdminCourseEditKeepsConsistent(old(State()), caller, c, f);
    }

    method EditCourse(caller: Option<UserId>, c: CourseId, f: EditForm) returns (o: Outcome)
      requires Valid()
      modifies this
      ensures Valid()
      ensures Step(o, State()) == Handlers.EditCourse(old(State()), caller, c, f)
    {
      if caller.None? {
        return LoginRedirect;
      }
      if caller.value !in instructors {
        return NotInstructor;
      }
      if c !in courses || courses[c].instructor != caller.value {
        return NotFound;
      }
      var course := courses[c];
      course := course.(title := f.title.GetOr(course.title));
      course := course.(description := f.description.GetOr(course.description));
      course := course.(price := f.price.GetOr(course.price));
      course := course.(isPaid := Checked(f.isPaid));
      course := course.(category := f.category.GetOr(course.category));
      courses := courses[c := course];
      o := Ok;
      Laws.EditCourseKeepsConsistent(old(State()), caller, c, f);
    }

    method AdminCourseDelete(caller: Option<UserId>, c: CourseId) returns (o: Outcome)
      requires Valid()
      requires caller.Some? ==> caller.value in users
      modifies this
      ensures Valid()
      ensures Step(o, State()) == Handlers.AdminCourseDelete(old(State()), caller, c)
    {
      if caller.None? {
        return LoginRedirect;
      }
      var gate := Access.AdminGate(Identity(State(), caller));
      if gate != Access.Admit {
        return Refusal(gate);
      }
      if c !in courses {
        return NotFound;
      }
      Delete(c);
      o := Ok;
      Laws.AdminCourseDeleteKeepsConsistent(old(State()), caller, c);
    }

    /** course.delete(): the rows that reference the course through CASCADE
      foreign keys go first, then the course itself. */
    method Delete(c: CourseId)
      modifies this
      ensures State() == DeleteCourse(old(State()), c)
    {
      var gone := CourseLessons(lessons, c);
      progress := map k | k in progress && k.1 !in gone :: progress[k];
      lessons := lessons - gone;
      enrollments := set e | e in enrollments && e.1 != c;
      students := map s | s in students :: students[s] - {c};
      courses := courses - {c};
    }

    /** signup; on success `id` is the new user's id. */
    method Signup(username: string, password1: string, password2: string, accountType: string)
      returns (o: Outcome, id: Option<UserId>)
      requires Valid()
      modifies this
      ensures Valid()
      ensures Step(o, State()) == Handlers.Signup(old(State()), username, password1, password2, accountType)
      ensures id == if o == Ok then Some(old(nextUserId)) else None
    {
      if password1 != password2 {
        return PasswordMismatch, None;
      }
      if username == "" || exists u | u in users :: users[u].username == username {
        return CreateFailed, None;
      }
      var newId := nextUserId;
      users := users[newId := Account(username, DefaultRole, false)];
      nextUserId := nextUserId + 1;
      profiles := PostSave(profiles, newId, true);
      ghost var created := State();
      assert created == AddUser(old(State()), Account(username, DefaultRole, false));
      if accountType == "student" {
        students := students[newId := {}];
        assert State() == created.(students := created.students[newId := {}]);
      } else if accountType == "instructor" {
        instructors := instructors[newId := InstructorInfo("", "")];
        assert State() == created.(instructors := created.instructors[newId := InstructorInfo("", "")]);
      }
      assert State() == CreateAccount(old(State()), username, accountType);
      o, id := Ok, Some(newId);
      Laws.SignupKeepsConsistent(old(State()), username, password1, password2, accountType);
    }

    method BecomeInstructor(caller: Option<UserId>, bio: Option<string>, specialization: Option<string>)
      returns (o: Outcome)
      requires Valid()
      requires caller.Some? ==> caller.value in users
      modifies this
      ensures Valid()
      ensures Step(o, State()) == Handlers.BecomeInstructor(old(State()), caller, bio, specialization)
    {
      if caller.None? {
        return LoginRedirect;
      }
      if caller.value in instructors {
        return AlreadyInstructor;
      }
      if bio.None? || specialization.None? {
        return CreateFailed;
      }
      instructors := instructors[caller.value := InstructorInfo(bio.value, specialization.value)];
      o := Ok;
      Laws.BecomeInstructorKeepsConsistent(old(State()), caller, bio, specialization);
    }
  }
}
