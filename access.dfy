/** The two access-control decorators of courses/decorators.py, as predicates
    over the requesting identity plus the dispatch they perform. */
module Access {
  import opened Accounts

  /** Who made the request: an anonymous visitor or a signed-in account. */
  datatype Identity = Anonymous | Authenticated(account: Account)

  /** What a decorator decides before the wrapped view runs. */
  datatype Gate = RedirectToLogin | Forbidden(message: string) | Admit

  /** What a decorated view returns: the login redirect, a 403 page, or the view's own result. */
  datatype Response<+R> = Redirect(target: string) | HttpForbidden(message: string) | View(result: R)

  const LoginUrl: string := "login"
  const AdminDenied: string := "You don't have permission to access the admin dashboard"
  const InstructorDenied: string := "You don't have permission to access instructor features"

  /** The admin_required check on a signed-in account. */
  predicate AdminCheck(a: Account) {
    a.isSuperuser || a.role == "admin"
  }

  /** The instructor_required check: the account's is_instructor or is_admin
      property, or the superuser flag. */
  predicate InstructorCheck(a: Account) {
    IsInstructor(a) || IsAdmin(a) || a.isSuperuser
  }

  function AdminGate(id: Identity): (g: Gate)
    ensures g == RedirectToLogin <==> id.Anonymous?
    ensures g == Admit <==> id.Authenticated? && (id.account.isSuperuser || id.account.role == "admin")
    ensures g.Forbidden? ==> g.message == AdminDenied
  {
    match id
    case Anonymous => RedirectToLogin
    case Authenticated(a) => if !AdminCheck(a) then Forbidden(AdminDenied) else Admit
  }

  function InstructorGate(id: Identity): (g: Gate)
    ensures g == RedirectToLogin <==> id.Anonymous?
    ensures g == Admit <==>
              id.Authenticated? &&
              (id.account.role in {"instructor", "admin"} || id.account.isSuperuser)
    ensures g.Forbidden? ==> g.message == InstructorDenied
  {
    match id
    case Anonymous => RedirectToLogin
    case Authenticated(a) => if !InstructorCheck(a) then Forbidden(InstructorDenied) else Admit
  }

  /** Turns a gate decision into the response; the view is applied only on Admit. */
  function Dispatch<A, R>(g: Gate, view: A -> R, args: A): Response<R> {
    match g
    case RedirectToLogin => Redirect(LoginUrl)
    case Forbidden(m) => HttpForbidden(m)
    case Admit => View(view(args))
  }

  /** admin_required(view) applied to a request made by `id` with arguments `args`. */
  function AdminRequired<A, R>(id: Identity, view: A -> R, args: A): (r: Response<R>)
    ensures id.Anonymous? ==> r == Redirect(LoginUrl)
    ensures r.View? <==> id.Authenticated? && (id.account.isSuperuser || id.account.role == "admin")
    ensures r.View? ==> r.result == view(args)
    ensures id.Authenticated? && !r.View? ==> r == HttpForbidden(AdminDenied)
  {
    Dispatch(AdminGate(id), view, args)
  }

  /** instructor_required(view) applied to a request made by `id` with arguments `args`. */
  function InstructorRequired<A, R>(id: Identity, view: A -> R, args: A): (r: Response<R>)
    ensures id.Anonymous? ==> r == Redirect(LoginUrl)
    ensures r.View? <==>
              id.Authenticated? &&
              (id.account.role in {"instructor", "admin"} || id.account.isSuperuser)
    ensures r.View? ==> r.result == view(args)
    ensures id.Authenticated? && !r.View? ==> r == HttpForbidden(InstructorDenied)
  {
    Dispatch(InstructorGate(id), view, args)
  }

  /** Every identity admitted by admin_required is admitted by instructor_required,
      and both agree on the account's is_admin property. */
  lemma AdminAdmittedAsInstructor<A, R>(id: Identity, view: A -> R, args: A)
    ensures AdminRequired(id, view, args).View? ==> InstructorRequired(id, view, args).View?
    ensures AdminRequired(id, view, args).View? ==> InstructorRequired(id, view, args) == AdminRequired(id, view, args)
    ensures id.Authenticated? ==> (AdminGate(id) == Admit <==> IsAdmin(id.account))
  {
  }
}
