# Course enrollment and progress rules, modelled in Dafny

This project models the business rules of a small course-enrollment web
application (a Django app, package `courses`). Users sign up as students or
instructors. Instructors own courses made of lessons. Students enroll in
courses and mark lessons complete, and course pages show a completion
percentage. Two decorators guard the admin and instructor pages.

The database is one value, `Schema.Db`. Every table is a map or a set:
- users, profiles, Student rows with their `enrolled_courses`, Instructor rows;
- courses, lessons (each with its course), LessonProgress rows keyed by
  (student, lesson), Enrollment rows as (student, course) pairs.

Because of these keys, the `unique_together` constraints hold by
construction. The foreign keys are the invariant `Schema.Consistent`.

Each modelled state-changing handler of `courses/views.py` appears twice:
- as a function in `Handlers` from the state before the request to an
  `Outcome` and the state after it;
- as a method of the class `Persistence.Store`, whose fields are the tables.
  The method updates them in place and is proved to perform exactly that
  step and to keep `Valid()`.

`course_detail` appears as the function `Handlers.ShownProgress` and the
read-only method `Persistence.Store.CourseDetail`.

The module `Laws` states what the handlers promise over all states: error
paths change nothing, a repeated enroll or mark-complete request is a no-op, a
repeated become-instructor request is refused, completion is monotonic,
the shown progress stays in [0, 100], and every handler keeps the foreign keys.

Modules, one file each:
- `common.dfy`: ids, `Option`, `Result`;
- `accounts.dfy`: the `CustomUser` role properties;
- `access.dfy`: `admin_required` and `instructor_required`;
- `forms.dfy`: `CourseForm.clean_price`;
- `catalog.dfy`: the Course record and the edit rules;
- `progress.dfy`: lesson counts and the two percentages;
- `stats.dfy`: `Instructor.total_students` and the distinct count;
- `schema.dfy`: the state, its invariant, the profile signal, the delete cascade;
- `handlers.dfy`, `laws.dfy`, `store.dfy`: as above.

Modelling choices:
- Student and Instructor rows are one-to-one with their user, so both are keyed by the user id.
- Prices are decimals with two places, so they are modelled in cents.
- A caller is `Option<UserId>`. `None` is an anonymous visitor, whom `@login_required` redirects.
- A signed-in caller is required to be a stored user, as the session guarantees.

Behaviour of the code that the model follows even where one might expect otherwise:
- Neither course-edit handler re-checks the price/paid rule (`Catalog.EditsSkipPriceValidation`). No view uses `CourseForm`.
- `clean_price` accepts a free course with a negative price (`Forms.CleanPrice`).
- Enrolling and marking progress test for a Student row, not for the role `student`.
- Signup and `become_instructor` never set the role, so an instructor account keeps the default role `student` (`Laws.CreateAccountEffect`, `Laws.BecomeInstructorEffect`). The role-based `instructor_required` would refuse such an account, but it decorates no view. The instructor pages (`instructor_dashboard`, `create_course`, `edit_course`) test only for an Instructor row, which signup with account type "instructor" and `become_instructor` create, so such an account does reach them. `instructor_profile` is public: it shows the visited instructor and checks nothing about the caller.
- No code path sets a completion time.

## Model

| member | source | states |
|---|---|---|
| `Accounts.RoleProperties` | courses/models.py:34-44 | student and instructor exclude each other; a superuser is an admin whatever its role; an admin by role alone is neither student nor instructor |
| `Access.AdminGate` | courses/decorators.py:9-14 | anonymous goes to login; admitted exactly when superuser or role "admin"; otherwise forbidden with the admin message |
| `Access.InstructorGate` | courses/decorators.py:22-29 | anonymous goes to login; admitted exactly when role is "instructor" or "admin" or the user is a superuser; otherwise forbidden with the instructor message |
| `Access.AdminRequired` | courses/decorators.py:6-17 | anonymous gets the login redirect and the view is not called; an admitted request gets the view's result for the same arguments, unchanged; anyone else gets 403 |
| `Access.InstructorRequired` | courses/decorators.py:19-32 | the same dispatch with the instructor check |
| `Access.AdminAdmittedAsInstructor` | courses/decorators.py:13-28 | whoever admin_required admits, instructor_required admits too, with the same response; the admin check is the is_admin property |
| `Forms.CleanPrice` | courses/forms.py:52-62 | accepts exactly when (paid and price > 0) or (free and price <= 0), returning the price unchanged; paid with price <= 0 and free with price > 0 get their own error, raised with its own message text, so at most one error |
| `Catalog.AdminEdit` | courses/views.py:349-356 | absent title, description, price and category keep their old values, present ones are taken; the instructor is the looked-up one; each checkbox is true exactly when posted as "on" |
| `Catalog.InstructorEdit` | courses/views.py:526-530 | the same rules for title, description, price, category and paid flag; owner, active and featured flags unchanged |
| `Catalog.EditsIdempotent` | courses/views.py:349-356 | submitting the same edit twice gives the same course as once, for both handlers |
| `Catalog.InstructorEditIsRestrictedAdminEdit` | courses/views.py:526-530 | the instructor's edit equals the admin's edit with the owner and the two display flags carried over |
| `Catalog.EditsSkipPriceValidation` | courses/views.py:524-531 | posting a price without the paid box stores a free course with a positive price that clean_price would refuse |
| `Progress.CompletedCountBound` | courses/models.py:75-80 | completed rows of a student in a course correspond one-to-one with completed lessons of the course, so the count is at most total_lessons, with equality exactly when every lesson is completed |
| `Progress.CompletedCountGrows` | courses/views.py:264-271 | if no completed flag is cleared, no course's completed count drops |
| `Progress.PercentageBounds` | courses/views.py:37-39 | the integer percentage lies in [0, 100] and is 100 exactly when there are lessons and all are completed |
| `Progress.PercentageMonotone` | courses/views.py:37-39 | more completed lessons never give a lower integer percentage |
| `Progress.RealPercentageBounds` | courses/models.py:86-87 | the exact percentage lies in [0, 100] and is 100 exactly when there are lessons and all are completed |
| `Progress.CourseProgressBounds` | courses/models.py:82-87 | get_course_progress is 0 without lessons, lies in [0, 100], and is 100 exactly when the course has lessons and every one is completed |
| `Stats.DistinctAtMostTotal` | courses/models.py:63-66 | the distinct student count of the dashboard is at most total_students; both are 0 for an instructor with no course |
| `Stats.TotalCountsRepeatedStudents` | courses/views.py:456-458 | one student in two courses of the same instructor counts twice in total_students and once in the distinct count |
| `Schema.PostSaveProfileCount` | courses/models.py:176-184 | saving a newly created user adds exactly one profile; re-saving an existing user adds none |
| `Schema.AddUserKeepsConsistent` | courses/models.py:176-179 | a new user takes an unused id, gets its profile, and the invariant holds |
| `Schema.DeleteCourseCascades` | courses/models.py:113-145 | after deleting a course, no lesson, progress row, Enrollment row or membership refers to it; every other course, lesson (with its course) and progress row is kept, each student keeps all other memberships, and users, profiles, instructors and the id counter are unchanged; the invariant holds |
| `Schema.DeleteCourseKeepsOtherCounts` | courses/models.py:113-145 | deleting one course changes no lesson count and no completed count of any other course |
| `Laws.EnrollEffect` | courses/views.py:230-241 | anonymous gets the login redirect, a missing course NotFound, a caller without a Student row NotStudent, and every other request succeeds; every error leaves the state unchanged; success adds the course to the caller's set only |
| `Laws.EnrollIdempotent` | courses/views.py:237-238 | a second identical enroll request returns the same outcome and changes nothing |
| `Laws.MarkLessonCompleteEffect` | courses/views.py:253-274 | anonymous gets the login redirect, a missing lesson NotFound, a caller without a Student row NotStudent, a student outside the lesson's course NotEnrolled, and an enrolled student succeeds; refused requests change nothing; success leaves that pair's row completed and adds no other row; no completed flag is ever cleared |
| `Laws.MarkLessonCompleteIdempotent` | courses/views.py:264-271 | a second identical request returns the same outcome and changes nothing |
| `Laws.ShownProgressBounds` | courses/views.py:21-39 | 0 for a visitor who is not an enrolled student or for a course without lessons; always in [0, 100]; 100 exactly when an enrolled student has completed every lesson of a course that has some |
| `Laws.MarkLessonCompleteNeverLowersProgress` | courses/views.py:264-271 | marking a lesson never lowers the percentage any visitor sees on any course |
| `Laws.EnrollNeverLowersProgress` | courses/views.py:237-238 | enrolling never lowers the percentage any visitor sees on any course |
| `Laws.ThreeLessonWalkthrough` | courses/views.py:17-39 | in a three-lesson course the student sees 0 after enrolling, 66 after two lessons, the same state after repeating one, and 100 after the third |
| `Laws.AdminCourseEditEffect` | courses/views.py:343-368 | anonymous gets the login redirect and a non-admin 403; an admin gets NotFound for a missing course, fails without saving for an absent or unknown instructor, and succeeds otherwise; success rewrites that one course by the admin rules and nothing else |
| `Laws.EditCourseOwnerOnly` | courses/views.py:515-531 | anonymous gets the login redirect, a caller without an Instructor row is refused, an instructor gets NotFound for a missing course or one owned by someone else, and the request succeeds exactly for a course the caller owns; the saved course is the instructor edit of the old one, keeping its owner and display flags; no other course changes |
| `Laws.AdminCourseDeleteEffect` | courses/views.py:376-386 | anonymous gets the login redirect and a non-admin 403; an admin gets NotFound for a missing course and succeeds otherwise; a refused request changes nothing; success is the cascaded delete |
| `Laws.DeletedCourseNotFound` | courses/views.py:378-386 | after an admin deletes a course, enrolling in it or marking one of its former lessons answers not-found |
| `Laws.SignupEffect` | courses/views.py:186-191 | mismatched passwords give PasswordMismatch and create nothing; an empty or taken username creates nothing; otherwise the account is created |
| `Laws.CreateAccountEffect` | courses/views.py:190-198 | exactly one new user with the default role and exactly one new profile; a Student row exactly for "student", an Instructor row exactly for "instructor"; every existing Student and Instructor row kept as it was; course data unchanged |
| `Laws.BecomeInstructorEffect` | courses/views.py:544-561 | anonymous gets the login redirect; a caller with an Instructor row is told so and nothing changes; a missing bio or specialization creates nothing; otherwise success adds only the caller's Instructor row with the posted columns, after which a repeat is refused; the role, and so the role-based instructor_required decision, is unchanged |
| `Laws.EnrollKeepsConsistent` | courses/views.py:237-238 | enrolling keeps every foreign key valid |
| `Laws.MarkLessonCompleteKeepsConsistent` | courses/views.py:264-271 | marking a lesson keeps every foreign key valid |
| `Laws.AdminCourseEditKeepsConsistent` | courses/views.py:349-362 | the admin edit keeps every foreign key valid (the new owner is an instructor) |
| `Laws.EditCourseKeepsConsistent` | courses/views.py:526-531 | the instructor edit keeps every foreign key valid |
| `Laws.AdminCourseDeleteKeepsConsistent` | courses/views.py:380-384 | deleting a course keeps every foreign key valid |
| `Laws.CreateAccountKeepsConsistent` | courses/views.py:191-197 | creating the account keeps ids, usernames and profiles consistent |
| `Laws.SignupKeepsConsistent` | courses/views.py:186-201 | signup keeps every foreign key valid |
| `Laws.BecomeInstructorKeepsConsistent` | courses/views.py:553-557 | becoming an instructor keeps every foreign key valid |
| `Persistence.Store.CourseDetail` | courses/views.py:17-39 | not-found exactly for a missing course; otherwise the shown percentage, which lies in [0, 100] |
| `Persistence.Store.EnrollCourse` | courses/views.py:230-241 | the in-place update is the step of the enroll handler, and the invariant is kept |
| `Persistence.Store.MarkLessonComplete` | courses/views.py:253-274 | the in-place get-or-create and flag update is the step of the mark-complete handler, and the invariant is kept |
| `Persistence.Store.AdminCourseEdit` | courses/views.py:343-368 | the field-by-field assignments and save are the admin edit step, and the invariant is kept |
| `Persistence.Store.EditCourse` | courses/views.py:515-534 | the field-by-field assignments and save are the instructor edit step, and the invariant is kept |
| `Persistence.Store.AdminCourseDelete` | courses/views.py:378-386 | the gated delete is the handler step, and the invariant is kept |
| `Persistence.Store.Delete` | courses/models.py:113-145 | removing the dependent rows and then the course gives exactly the cascaded state |
| `Persistence.Store.Signup` | courses/views.py:178-206 | the in-place creation is the signup step, the returned id is the new user's, and the invariant is kept |
| `Persistence.Store.BecomeInstructor` | courses/views.py:542-563 | the in-place insert is the become-instructor step, and the invariant is kept |

## Left out

- HTTP, templates, flash message texts of the views, URL routing and admin registration: views are reduced to an `Outcome`.
- GET requests: the edit, delete, signup and become-instructor pages only render a form on GET and change nothing.
- Authentication, login, logout, sessions and password hashing: passwords only take part in the equality check of signup, and signup's automatic login is not modelled.
- Thumbnails, `created_at`, `updated_at` and `completed_at`: file storage and timestamps; no code path sets `completed_at`.
- `create_sample_courses` and `home`: fixture and display data, with exceptions swallowed.
- `admin_course_create` and `create_course`: course creation is not modelled. Like the edits, they store any price/paid pair.
- `my_courses`, `admin_dashboard`, `admin_instructors`, `admin_students`, `instructor_dashboard` and `instructor_profile`: read-only listings. Only the student counts they share with `Instructor.total_students` are modelled (`Stats`).
- `Progress.Percentage`: it is exact integer division. Python computes `int((c / t) * 100)` in floating point, which can give one less, as in `int((29 / 100) * 100) == 28`.
- `Progress.RealPercentage`: exact real arithmetic, not IEEE floats.
- `Forms.CleanPrice`: a pure function of price and paid flag. The form's field order (which can leave `is_paid` missing when the price is cleaned) and its unknown `duration` field are not modelled.
- Price parsing: a posted price is already a number of cents; a price that fails to convert on save is not modelled.
- Enrollment rows: no handler creates them, and they are not kept in sync with `enrolled_courses`. They are modelled only as a table the course delete cascades into.
- Deleting users, instructors or lessons: no handler does it, so only the course delete cascade is modelled.
- `UserProfile.is_admin/is_instructor/is_student` and `save_user_profile`: the profile's own role properties are unused by the views, and re-saving a profile only touches its timestamp.
- The `hasattr` tests in the decorators: every request user is a `CustomUser`, so they always succeed.
- The `django.contrib.auth.models.User` import in the views: signup is modelled as creating a `CustomUser` row with its field defaults.
- Username normalisation: in `Handlers.Signup` a username is taken when it equals a stored one character for character. `create_user` first applies Unicode NFKC normalisation, so two usernames that differ only before normalisation also clash there; normalisation is not modelled.
- Database errors other than an empty or taken username, and a NOT NULL bio or specialization, are not modelled.
