/**
 * The rules of app/admin/forms.py: the enrollment picker's student list,
 * the case-insensitive uniqueness checks (which leave the record being
 * edited out), the class end-date rule, the user form's password and role
 * rules, and the holiday form's fields.
 */
module AdminForms {
  import opened Wrappers
  import opened Text
  import opened Dates
  import opened Models
  import opened Validators

  // ---- get_students_not_in_class ----

  /**
   * `get_students_not_in_class(classId)`: the active students, minus those
   * enrolled in the class when the id is given (not 0) and names a class, in
   * (last name, first name) order.
   */
  function StudentsNotInClass(students: seq<Student>, classIds: set<int>, enrolled: Enrollments, classId: Option<int>): (r: seq<Student>)
    ensures SortedByName(r)
    ensures (classId.None? || classId.value == 0 || classId.value !in classIds) ==>
      forall x :: multiset(r)[x] == if x.isActive then multiset(students)[x] else 0
    ensures classId.Some? && classId.value != 0 && classId.value in classIds ==>
      forall x :: multiset(r)[x] == if x.isActive && (x.id, classId.value) !in enrolled then multiset(students)[x] else 0
  {
    if classId.None? || classId.value == 0 || classId.value !in classIds then SortByName(ActiveOnly(students))
    else SortByName(Where(students, (x: Student) => x.isActive && (x.id, classId.value) !in enrolled))
  }

  // ---- Uniqueness ----

  /** `if self.user_id: query = query.filter(User.id != self.user_id)`: the row that is left out. */
  predicate LeftOut(rowId: int, editingId: Option<int>) {
    editingId.Some? && editingId.value != 0 && rowId == editingId.value
  }

  /**
   * The inline uniqueness checks: some row other than the one being edited
   * has a value ILIKE the entered text. `rows` pairs each row's id with the
   * checked column.
   */
  predicate Taken(rows: seq<(int, string)>, entered: string, editingId: Option<int>) {
    exists i :: 0 <= i < |rows| && !LeftOut(rows[i].0, editingId) && ILike(rows[i].1, entered)
  }

  function Usernames(users: seq<User>): seq<(int, string)> {
    seq(|users|, i requires 0 <= i < |users| => (users[i].id, users[i].username))
  }

  function UserEmails(users: seq<User>): seq<(int, string)> {
    seq(|users|, i requires 0 <= i < |users| => (users[i].id, users[i].email))
  }

  function StudentIdNumbers(students: seq<Student>): seq<(int, string)> {
    seq(|students|, i requires 0 <= i < |students| => (students[i].id, students[i].studentIdNumber))
  }

  /** Students without an email never match: `NULL ILIKE x` is not true. */
  function StudentEmails(students: seq<Student>): (r: seq<(int, string)>)
    ensures forall p :: p in r <==> exists s :: s in students && s.email.Some? && p == (s.id, s.email.value)
  {
    if |students| == 0 then []
    else
      assert students == [students[0]] + students[1..];
      (if students[0].email.Some? then [(students[0].id, students[0].email.value)] else []) + StudentEmails(students[1..])
  }

  /**
   * Another row holding the entered text up to case always makes it taken,
   * and without wildcards in the entered text nothing else does; the row
   * being edited never counts.
   */
  lemma UniquenessMeaning(rows: seq<(int, string)>, entered: string, editingId: Option<int>)
    ensures (exists i :: 0 <= i < |rows| && !LeftOut(rows[i].0, editingId) && EqualsIgnoreCase(rows[i].1, entered))
            ==> Taken(rows, entered, editingId)
    ensures !HasWildcard(entered) ==>
      (Taken(rows, entered, editingId)
       <==> exists i :: 0 <= i < |rows| && !LeftOut(rows[i].0, editingId) && EqualsIgnoreCase(rows[i].1, entered))
    ensures editingId.Some? && editingId.value != 0 && (forall i :: 0 <= i < |rows| ==> rows[i].0 == editingId.value)
            ==> !Taken(rows, entered, editingId)
  {
    if exists i :: 0 <= i < |rows| && !LeftOut(rows[i].0, editingId) && EqualsIgnoreCase(rows[i].1, entered) {
      var i :| 0 <= i < |rows| && !LeftOut(rows[i].0, editingId) && EqualsIgnoreCase(rows[i].1, entered);
      ILikeCaseVariant(rows[i].1, entered);
    }
    if !HasWildcard(entered) && Taken(rows, entered, editingId) {
      var i :| 0 <= i < |rows| && !LeftOut(rows[i].0, editingId) && ILike(rows[i].1, entered);
      ILikeLiteral(rows[i].1, entered);
    }
  }

  /** `TeacherForm` / `UserAdminForm.validate_username`. */
  predicate UsernameAvailable(users: seq<User>, entered: string, editingId: Option<int>) {
    !Taken(Usernames(users), entered, editingId)
  }

  /** `TeacherForm` / `UserAdminForm.validate_email`. */
  predicate UserEmailAvailable(users: seq<User>, entered: string, editingId: Option<int>) {
    !Taken(UserEmails(users), entered, editingId)
  }

  /** `StudentForm.validate_student_id_number`. */
  predicate StudentIdNumberAvailable(students: seq<Student>, entered: string, editingId: Option<int>) {
    !Taken(StudentIdNumbers(students), entered, editingId)
  }

  /** `StudentForm.validate_email`: only an entered (non-empty) email is looked up. */
  predicate StudentEmailAvailable(students: seq<Student>, entered: string, editingId: Option<int>) {
    entered == "" || !Taken(StudentEmails(students), entered, editingId)
  }

  /**
   * A user may keep their own username and email when edited; another
   * user's username or email, in any case, is refused.
   */
  lemma UserUniquenessExcludesSelf(users: seq<User>, editing: User, entered: string, other: User)
    requires editing.id != 0 && other in users && other.id != editing.id
    ensures EqualsIgnoreCase(other.username, entered) ==> !UsernameAvailable(users, entered, Some(editing.id))
    ensures EqualsIgnoreCase(other.email, entered) ==> !UserEmailAvailable(users, entered, Some(editing.id))
    ensures (forall u :: u in users ==> u.id == editing.id) ==>
      UsernameAvailable(users, entered, Some(editing.id)) && UserEmailAvailable(users, entered, Some(editing.id))
  {
    var i :| 0 <= i < |users| && users[i] == other;
    UniquenessMeaning(Usernames(users), entered, Some(editing.id));
    UniquenessMeaning(UserEmails(users), entered, Some(editing.id));
    assert Usernames(users)[i] == (other.id, other.username);
    assert UserEmails(users)[i] == (other.id, other.email);
  }

  /** The same holds for students: another student's ID number or email, in any case, is refused. */
  lemma StudentUniquenessExcludesSelf(students: seq<Student>, editingId: int, entered: string, other: Student)
    requires editingId != 0 && other in students && other.id != editingId
    ensures EqualsIgnoreCase(other.studentIdNumber, entered) ==> !StudentIdNumberAvailable(students, entered, Some(editingId))
    ensures entered != "" && other.email.Some? && EqualsIgnoreCase(other.email.value, entered) ==>
      !StudentEmailAvailable(students, entered, Some(editingId))
    ensures StudentEmailAvailable(students, "", Some(editingId))
  {
    var i :| 0 <= i < |students| && students[i] == other;
    UniquenessMeaning(StudentIdNumbers(students), entered, Some(editingId));
    assert StudentIdNumbers(students)[i] == (other.id, other.studentIdNumber);
    if other.email.Some? {
      var es := StudentEmails(students);
      assert (other.id, other.email.value) in es;
      var j :| 0 <= j < |es| && es[j] == (other.id, other.email.value);
      UniquenessMeaning(es, entered, Some(editingId));
    }
  }

  // ---- The class form's end date ----

  /** `SubjectClassForm.validate_end_date`: refuse only an end date before a given start date. */
  predicate EndDateAccepted(start: Option<Date>, end: Option<Date>) {
    !(end.Some? && start.Some? && Before(end.value, start.value))
  }

  /** An end date is refused exactly when both dates are given and it is earlier; equal dates pass. */
  lemma EndDateRule(start: Option<Date>, end: Option<Date>)
    ensures !EndDateAccepted(start, end) <==> start.Some? && end.Some? && end.value.ordinal < start.value.ordinal
    ensures start.Some? && end == start ==> EndDateAccepted(start, end)
    ensures start.None? || end.None? ==> EndDateAccepted(start, end)
  {
  }

  // ---- UserAdminForm ----

  /** The `password` and `confirm_password` lists as the class declares them. */
  const DeclaredPasswordValidators: seq<Validator> := [Length(6, -1)]
  const DeclaredConfirmValidators: seq<Validator> := [EqualTo("password")]

  /**
   * The validator lists that every `UserAdminForm` shares through its class;
   * a form built for a new user inserts `DataRequired` at the front of each.
   */
  class UserAdminFormValidators {
    var password: seq<Validator>
    var confirm: seq<Validator>

    constructor ()
      ensures password == DeclaredPasswordValidators && confirm == DeclaredConfirmValidators
    {
      password := DeclaredPasswordValidators;
      confirm := DeclaredConfirmValidators;
    }

    /**
     * `UserAdminForm()` without a user to edit: both shared lists gain a
     * leading `DataRequired`, and the form validates with the lists as they
     * now are.
     */
    method NewUserForm() returns (passwordChain: seq<Validator>, confirmChain: seq<Validator>)
      modifies this
      ensures password == [DataRequired] + old(password) && confirm == [DataRequired] + old(confirm)
      ensures passwordChain == password && confirmChain == confirm
    {
      password := [DataRequired] + password;
      confirm := [DataRequired] + confirm;
      passwordChain, confirmChain := password, confirm;
    }
  }

  /**
   * `UserAdminForm(editing_user=...)`: the instance lists are replaced, with
   * the length and match rules only when a password was typed.
   */
  function EditPasswordChains(passwordData: Option<string>): (seq<Validator>, seq<Validator>) {
    if passwordData.Some? && passwordData.value != "" then (DeclaredPasswordValidators, DeclaredConfirmValidators)
    else ([], [])
  }

  /** The posted fields of the user form. */
  datatype UserAdminInput = UserAdminInput(
    username: Option<string>,
    email: Option<string>,
    firstName: Option<string>,
    lastName: Option<string>,
    role: Option<string>,
    password: Option<string>,
    confirmPassword: Option<string>,
    isActive: bool)

  function PasswordContext(input: UserAdminInput, emailOk: string -> bool): Context {
    Context(name => if name == "password" then input.password else None, emailOk)
  }

  /** How the password and its confirmation fare under the given lists. */
  predicate PasswordFieldsValid(input: UserAdminInput, passwordChain: seq<Validator>, confirmChain: seq<Validator>) {
    FieldValid(input.password, passwordChain, PasswordContext(input, s => true), 0)
    && FieldValid(input.confirmPassword, confirmChain, PasswordContext(input, s => true), 0)
  }

  /**
   * The password rules: a new user needs a password of at least six
   * characters and a matching, non-blank confirmation, however many forms
   * have added to the shared lists; an edit checks both only when a password
   * is typed, and then as the declared rules do.
   */
  lemma {:induction false} PasswordRules(input: UserAdminInput, n: nat)
    requires n >= 1
    ensures PasswordFieldsValid(input, Repeat(DataRequired, n) + DeclaredPasswordValidators, Repeat(DataRequired, n) + DeclaredConfirmValidators)
        <==> !Blank(input.password) && |input.password.value| >= 6 && !Blank(input.confirmPassword) && input.confirmPassword == input.password
    ensures var chains := EditPasswordChains(input.password);
      (PasswordFieldsValid(input, chains.0, chains.1)
       <==> (input.password.None? || input.password.value == ""
             || (|input.password.value| >= 6 && input.confirmPassword == input.password)))
  {
    var ctx := PasswordContext(input, s => true);
    RepeatedDataRequired(input.password, DeclaredPasswordValidators, ctx, 0, n);
    RepeatedDataRequired(input.confirmPassword, DeclaredConfirmValidators, ctx, 0, n);
    RequiredThenOne(input.password, Length(6, -1), ctx);
    RequiredThenOne(input.confirmPassword, EqualTo("password"), ctx);
    OneCheck(input.password, Length(6, -1), ctx);
    OneCheck(input.confirmPassword, EqualTo("password"), ctx);
    assert [DataRequired] + DeclaredPasswordValidators == [DataRequired, Length(6, -1)];
    assert [DataRequired] + DeclaredConfirmValidators == [DataRequired, EqualTo("password")];
  }

  /**
   * The role field: the posted value must be one of the choices, which are
   * exactly the role values, so `validate_role` never adds an error of its own.
   */
  predicate RoleFieldValid(role: Option<string>) {
    var choiceOk := exists i :: 0 <= i < |GetChoices()| && Some(GetChoices()[i].0) == role;
    var enumOk := role.Some? && RoleFromValue(role.value).Some?;
    choiceOk && enumOk
  }

  /** The role field accepts exactly the strings that are a role's value. */
  lemma RoleFieldAcceptsRoleValues(role: Option<string>)
    ensures RoleFieldValid(role) <==> exists r: UserRole :: role == Some(r.Value())
  {
    if role.Some? && RoleFromValue(role.value).Some? {
      var r := RoleFromValue(role.value).value;
      var i := if r == Superuser then 0 else if r == Admin then 1 else if r == Teacher then 2 else 3;
      assert GetChoices()[i].0 == role.value;
    }
    if exists r: UserRole :: role == Some(r.Value()) {
      var r: UserRole :| role == Some(r.Value());
      RoleValueRoundTrip(r);
    }
  }

  /** Every field of the user form passes. */
  predicate UserAdminFormValid(input: UserAdminInput, users: seq<User>, editingId: Option<int>,
                               passwordChain: seq<Validator>, confirmChain: seq<Validator>, emailOk: string -> bool)
  {
    var ctx := PasswordContext(input, emailOk);
    FieldValid(input.username, [DataRequired, Length(3, 64),
                                Inline(input.username.Some? && UsernameAvailable(users, input.username.value, editingId))], ctx, 0)
    && FieldValid(input.email, [DataRequired, Email, Length(-1, 120),
                                Inline(input.email.Some? && UserEmailAvailable(users, input.email.value, editingId))], ctx, 0)
    && FieldValid(input.firstName, [OptionalField, Length(-1, 64)], ctx, 0)
    && FieldValid(input.lastName, [OptionalField, Length(-1, 64)], ctx, 0)
    && RoleFieldValid(input.role)
    && PasswordFieldsValid(input, passwordChain, confirmChain)
  }

  /**
   * The username and email fields: required, within their lengths, the
   * email well-formed, and neither taken by another user.
   */
  lemma {:induction false} UserAdminIdentityFields(input: UserAdminInput, users: seq<User>, editingId: Option<int>, emailOk: string -> bool)
    ensures var ctx := PasswordContext(input, emailOk);
      FieldValid(input.username, [DataRequired, Length(3, 64),
                                  Inline(input.username.Some? && UsernameAvailable(users, input.username.value, editingId))], ctx, 0)
      <==> (!Blank(input.username) && 3 <= |input.username.value| <= 64 && UsernameAvailable(users, input.username.value, editingId))
    ensures var ctx := PasswordContext(input, emailOk);
      FieldValid(input.email, [DataRequired, Email, Length(-1, 120),
                               Inline(input.email.Some? && UserEmailAvailable(users, input.email.value, editingId))], ctx, 0)
      <==> (!Blank(input.email) && emailOk(input.email.value) && |input.email.value| <= 120 && UserEmailAvailable(users, input.email.value, editingId))
  {
    var ctx := PasswordContext(input, emailOk);
    RequiredThenTwo(input.username, Length(3, 64), Inline(input.username.Some? && UsernameAvailable(users, input.username.value, editingId)), ctx);
    RequiredThenThree(input.email, Email, Length(-1, 120), Inline(input.email.Some? && UserEmailAvailable(users, input.email.value, editingId)), ctx);
  }

  // ---- HolidayForm ----

  /** The holiday types the form offers. */
  const HolidayTypes: seq<string> := ["Public Holiday", "School Holiday", "School Event", "Staff Day", "Other"]

  lemma HolidayTypesNotBlank(k: string)
    requires k in HolidayTypes
    ensures !Blank(Some(k))
  {
    assert !IsSpace(k[0]) by {
      assert k[0] in {'P', 'S', 'O'};
    }
    StripKeepsFirstText(k);
  }

  /** The posted fields of the holiday form. */
  datatype HolidayInput = HolidayInput(name: Option<string>, date: Option<string>, kind: Option<string>, description: Option<string>)

  /** The holiday form consults no other field. */
  const HolidayContext: Context := Context(name => None, s => true)

  predicate HolidayNameValid(name: Option<string>) {
    FieldValid(name, [DataRequired, Length(3, 100)], HolidayContext, 0)
  }

  /** The type must be posted, one of the choices, and not blank. */
  predicate HolidayKindValid(kind: Option<string>) {
    kind.Some? && kind.value in HolidayTypes && FieldValid(kind, [DataRequired], HolidayContext, 0)
  }

  predicate HolidayDescriptionValid(description: Option<string>) {
    FieldValid(description, [OptionalField, Length(-1, 500)], HolidayContext, 0)
  }

  /**
   * Every field of the holiday form passes: the date is a `%Y-%m-%d` date,
   * the type is one of the choices, and the name and description are checked
   * by their lists.
   */
  predicate HolidayFormValid(input: HolidayInput) {
    HolidayNameValid(input.name)
    && input.date.Some? && ParseYmd(input.date.value).Some?
    && HolidayKindValid(input.kind)
    && HolidayDescriptionValid(input.description)
  }

  /**
   * A holiday passes exactly when its name is not blank and 3 to 100
   * characters long, its type is one of the five, its date parses, and any
   * description is at most 500 characters.
   */
  lemma HolidayFormRules(input: HolidayInput)
    ensures HolidayFormValid(input) <==>
      !Blank(input.name) && 3 <= |input.name.value| <= 100
      && input.kind.Some? && input.kind.value in HolidayTypes
      && input.date.Some? && ParseYmd(input.date.value).Some?
      && (Blank(input.description) || |input.description.value| <= 500)
  {
    RequiredThenOne(input.name, Length(3, 100), HolidayContext);
    assert HolidayNameValid(input.name) <==> !Blank(input.name) && 3 <= |input.name.value| <= 100;
    RequiredThenChecks(input.kind, [], HolidayContext);
    assert [DataRequired] + [] == [DataRequired];
    if input.kind.Some? && input.kind.value in HolidayTypes {
      HolidayTypesNotBlank(input.kind.value);
    }
    assert HolidayKindValid(input.kind) <==> input.kind.Some? && input.kind.value in HolidayTypes;
    OptionalThenOne(input.description, Length(-1, 500), HolidayContext);
    assert HolidayDescriptionValid(input.description) <==> Blank(input.description) || |input.description.value| <= 500;
  }
}
