/**
 * The access gates of app/decorators.py as decision functions. A gate sees
 * who is signed in, the request path and the wrapped handler with its
 * arguments, and decides between a redirect to the login page, a 403, or
 * the handler's own response.
 */
module Decorators {
  import opened Wrappers
  import opened Models

  /** `current_user`: anonymous, or a signed-in user whose role may be unset. */
  datatype Principal = Anonymous | Authenticated(role: Option<UserRole>)

  /** What a gated view answers. */
  datatype Outcome<R> =
    | RedirectToLogin(next: string)   // the login page, with `next` set to the request path
    | Forbidden                       // `abort(403)`
    | Allowed(response: R)            // the wrapped view's own response

  /** `role_required`'s argument: one role, or a list of roles any of which will do. */
  datatype RoleSpec = OneRole(role: UserRole) | AnyOf(roles: seq<UserRole>)

  predicate HasRoleIn(who: Principal, roles: set<UserRole>) {
    who.Authenticated? && who.role.Some? && who.role.value in roles
  }

  /** `role_required(spec)` wrapped around `handler`. */
  function RoleRequired<A, R>(spec: RoleSpec, who: Principal, path: string, handler: A -> R, args: A): (r: Outcome<R>)
    ensures who.Anonymous? <==> r == RedirectToLogin(path)
    ensures who.Authenticated? && who.role.None? ==> r.Forbidden?
    ensures spec.AnyOf? ==> (r.Allowed? <==> HasRoleIn(who, set x | x in spec.roles))
    ensures spec.OneRole? ==> (r.Allowed? <==> HasRoleIn(who, {spec.role}))
    ensures r.Allowed? ==> r.response == handler(args)
  {
    if who.Anonymous? then RedirectToLogin(path)
    else if who.role.None? then Forbidden
    else
      match spec
      case AnyOf(roles) => if who.role.value !in roles then Forbidden else Allowed(handler(args))
      case OneRole(role) => if who.role.value != role then Forbidden else Allowed(handler(args))
  }

  /** `superuser_required`: `current_user.is_superuser` must hold. */
  function SuperuserRequired<A, R>(who: Principal, path: string, handler: A -> R, args: A): (r: Outcome<R>)
    ensures who.Anonymous? <==> r == RedirectToLogin(path)
    ensures r.Allowed? <==> HasRoleIn(who, {Superuser})
    ensures r.Allowed? ==> r.response == handler(args)
  {
    if who.Anonymous? then RedirectToLogin(path)
    else if !(who.role.Some? && who.role.value == Superuser) then Forbidden
    else Allowed(handler(args))
  }

  /** `admin_required`: the role must be ADMIN or SUPERUSER. */
  function AdminRequired<A, R>(who: Principal, path: string, handler: A -> R, args: A): (r: Outcome<R>)
    ensures who.Anonymous? <==> r == RedirectToLogin(path)
    ensures r.Allowed? <==> HasRoleIn(who, {Admin, Superuser})
    ensures r.Allowed? ==> r.response == handler(args)
  {
    if who.Anonymous? then RedirectToLogin(path)
    else if !(who.role == Some(Admin) || who.role == Some(Superuser)) then Forbidden
    else Allowed(handler(args))
  }

  /** `teacher_required`: the role must be TEACHER. */
  function TeacherRequired<A, R>(who: Principal, path: string, handler: A -> R, args: A): (r: Outcome<R>)
    ensures who.Anonymous? <==> r == RedirectToLogin(path)
    ensures r.Allowed? <==> HasRoleIn(who, {Teacher})
    ensures r.Allowed? ==> r.response == handler(args)
  {
    if who.Anonymous? then RedirectToLogin(path)
    else if !(who.role == Some(Teacher)) then Forbidden
    else Allowed(handler(args))
  }

  /** `staff_required`: the role must be STAFF, ADMIN or SUPERUSER. */
  function StaffRequired<A, R>(who: Principal, path: string, handler: A -> R, args: A): (r: Outcome<R>)
    ensures who.Anonymous? <==> r == RedirectToLogin(path)
    ensures r.Allowed? <==> HasRoleIn(who, {Staff, Admin, Superuser})
    ensures r.Allowed? ==> r.response == handler(args)
  {
    if who.Anonymous? then RedirectToLogin(path)
    else if !(who.role == Some(Staff) || who.role == Some(Admin) || who.role == Some(Superuser)) then Forbidden
    else Allowed(handler(args))
  }

  /** The signed-in `User` with role `role`, as the gates see it. */
  function AsPrincipal(u: User): Principal {
    Authenticated(Some(u.role))
  }

  /**
   * The admitted sets nest: whoever passes `superuser_required` passes
   * `admin_required`, and whoever passes that passes `staff_required`;
   * `teacher_required` and `staff_required` admit disjoint sets that between
   * them cover every user. Each gate admits a user exactly when the matching
   * `User.is_*` predicate holds.
   */
  lemma {:induction false} GatesNest<A, R>(u: User, path: string, handler: A -> R, args: A)
    ensures SuperuserRequired(AsPrincipal(u), path, handler, args).Allowed? <==> u.IsSuperuser()
    ensures AdminRequired(AsPrincipal(u), path, handler, args).Allowed? <==> u.IsAdmin()
    ensures TeacherRequired(AsPrincipal(u), path, handler, args).Allowed? <==> u.IsTeacher()
    ensures StaffRequired(AsPrincipal(u), path, handler, args).Allowed? <==> (u.IsStaff() || u.IsAdmin())
    ensures SuperuserRequired(AsPrincipal(u), path, handler, args).Allowed? ==> AdminRequired(AsPrincipal(u), path, handler, args).Allowed?
    ensures AdminRequired(AsPrincipal(u), path, handler, args).Allowed? ==> StaffRequired(AsPrincipal(u), path, handler, args).Allowed?
    ensures TeacherRequired(AsPrincipal(u), path, handler, args).Allowed? <==> !StaffRequired(AsPrincipal(u), path, handler, args).Allowed?
  {
    RolePredicates(u);
  }

  /**
   * The named gates are `role_required` with a fixed argument: single-role
   * `role_required` behaves as `superuser_required` and `teacher_required`,
   * and the list forms [ADMIN, SUPERUSER] and [STAFF, ADMIN, SUPERUSER] as
   * `admin_required` and `staff_required`.
   */
  lemma {:induction false} NamedGatesAreRoleRequired<A, R>(who: Principal, path: string, handler: A -> R, args: A)
    ensures RoleRequired(OneRole(Superuser), who, path, handler, args) == SuperuserRequired(who, path, handler, args)
    ensures RoleRequired(OneRole(Teacher), who, path, handler, args) == TeacherRequired(who, path, handler, args)
    ensures RoleRequired(AnyOf([Admin, Superuser]), who, path, handler, args) == AdminRequired(who, path, handler, args)
    ensures RoleRequired(AnyOf([Staff, Admin, Superuser]), who, path, handler, args) == StaffRequired(who, path, handler, args)
  {
  }
}
