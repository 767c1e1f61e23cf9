/** The custom user record and its role properties (courses/models.py, CustomUser). */
module Accounts {

  /** A CustomUser row: the role is a free-form string column whose default is "student". */
  datatype Account = Account(username: string, role: string, isSuperuser: bool)

  const DefaultRole: string := "student"

  predicate IsStudent(a: Account) {
    a.role == "student"
  }

  predicate IsInstructor(a: Account) {
    a.role == "instructor"
  }

  /** Admin by role, or by the superuser flag whatever the role. */
  predicate IsAdmin(a: Account) {
    a.role == "admin" || a.isSuperuser
  }

  /** The three role properties: student and instructor exclude each other
      and admin-by-role; a superuser is an admin whatever its role, so a
      superuser with the default role is both a student and an admin. */
  lemma RoleProperties(a: Account)
    ensures !(IsStudent(a) && IsInstructor(a))
    ensures IsAdmin(a) && !a.isSuperuser ==> !IsStudent(a) && !IsInstructor(a)
    ensures a.isSuperuser ==> IsAdmin(a)
    ensures IsStudent(a) || IsInstructor(a) || IsAdmin(a) <==>
              a.role in {"student", "instructor", "admin"} || a.isSuperuser
  {
  }
}
