/**
 * The self-service forms of app/main/forms.py: the profile form, whose email
 * must stay unique unless it is the user's own up to case, and the
 * change-password form. The current password's hash check is a verdict given
 * as a parameter.
 */
module MainForms {
  import opened Wrappers
  import opened Text
  import opened Models
  import opened Validators

  /**
   * `UpdateProfileForm.validate_email`: an email equal to the current one up
   * to case passes; any other passes only when no user's email is ILIKE it.
   * The lookup does not leave the current user out.
   */
  predicate ProfileEmailAccepted(users: seq<User>, current: User, entered: string) {
    EqualsIgnoreCase(entered, current.email)
    || !exists i :: 0 <= i < |users| && ILike(users[i].email, entered)
  }

  /**
   * The email rule: the user's own email (in any case) passes with no lookup,
   * another user's email (in any case) is refused, and for text without
   * wildcards nothing else is refused.
   */
  lemma ProfileEmailRule(users: seq<User>, current: User, entered: string)
    ensures EqualsIgnoreCase(entered, current.email) ==> ProfileEmailAccepted(users, current, entered)
    ensures forall u :: u in users && !EqualsIgnoreCase(entered, current.email) && EqualsIgnoreCase(u.email, entered)
              ==> !ProfileEmailAccepted(users, current, entered)
    ensures !HasWildcard(entered) ==>
      (ProfileEmailAccepted(users, current, entered)
       <==> EqualsIgnoreCase(entered, current.email) || forall u :: u in users ==> !EqualsIgnoreCase(u.email, entered))
  {
    forall u | u in users && EqualsIgnoreCase(u.email, entered)
      ensures exists i :: 0 <= i < |users| && ILike(users[i].email, entered)
    {
      var i :| 0 <= i < |users| && users[i] == u;
      ILikeCaseVariant(u.email, entered);
    }
    if !HasWildcard(entered) && exists i :: 0 <= i < |users| && ILike(users[i].email, entered) {
      var i :| 0 <= i < |users| && ILike(users[i].email, entered);
      ILikeLiteral(users[i].email, entered);
    }
  }

  /** The posted fields of the profile form (the username is read-only and not validated). */
  datatype ProfileInput = ProfileInput(email: Option<string>, firstName: Option<string>, lastName: Option<string>)

  /** Every field of the profile form passes. */
  predicate ProfileFormValid(input: ProfileInput, users: seq<User>, current: User, emailOk: string -> bool) {
    var ctx := Context(name => None, emailOk);
    FieldValid(input.email, [DataRequired, Email, Length(-1, 120),
                             Inline(input.email.Some? && ProfileEmailAccepted(users, current, input.email.value))], ctx, 0)
    && FieldValid(input.firstName, [OptionalField, Length(-1, 64)], ctx, 0)
    && FieldValid(input.lastName, [OptionalField, Length(-1, 64)], ctx, 0)
  }

  /**
   * The profile form passes exactly when the email is given, well-formed, at
   * most 120 characters and accepted by the uniqueness rule, and each name
   * is blank or at most 64 characters.
   */
  lemma ProfileFormRules(input: ProfileInput, users: seq<User>, current: User, emailOk: string -> bool)
    ensures ProfileFormValid(input, users, current, emailOk) <==>
      !Blank(input.email) && emailOk(input.email.value) && |input.email.value| <= 120
      && ProfileEmailAccepted(users, current, input.email.value)
      && (Blank(input.firstName) || |input.firstName.value| <= 64)
      && (Blank(input.lastName) || |input.lastName.value| <= 64)
  {
    var ctx := Context(name => None, emailOk);
    RequiredThenThree(input.email, Email, Length(-1, 120),
                      Inline(input.email.Some? && ProfileEmailAccepted(users, current, input.email.value)), ctx);
    OptionalThenOne(input.firstName, Length(-1, 64), ctx);
    OptionalThenOne(input.lastName, Length(-1, 64), ctx);
  }

  /** The posted fields of the change-password form. */
  datatype PasswordChange = PasswordChange(current: Option<string>, newPassword: Option<string>, confirm: Option<string>)

  /**
   * Every field of the change-password form passes; `currentOk` is the
   * verdict of `validate_current_password`.
   */
  predicate ChangePasswordValid(input: PasswordChange, currentOk: bool) {
    var ctx := Context(name => if name == "new_password" then input.newPassword else None, s => true);
    FieldValid(input.current, [DataRequired, Inline(currentOk)], ctx, 0)
    && FieldValid(input.newPassword, [DataRequired, Length(6, -1)], ctx, 0)
    && FieldValid(input.confirm, [DataRequired, EqualTo("new_password")], ctx, 0)
  }

  /**
   * A password change passes exactly when all three fields are filled in,
   * the current password checks out, and the new password has at least six
   * characters and equals its confirmation.
   */
  lemma ChangePasswordRules(input: PasswordChange, currentOk: bool)
    ensures ChangePasswordValid(input, currentOk) <==>
      !Blank(input.current) && currentOk
      && !Blank(input.newPassword) && |input.newPassword.value| >= 6
      && !Blank(input.confirm) && input.confirm == input.newPassword
  {
    var ctx := Context(name => if name == "new_password" then input.newPassword else None, s => true);
    RequiredThenOne(input.current, Inline(currentOk), ctx);
    RequiredThenOne(input.newPassword, Length(6, -1), ctx);
    RequiredThenOne(input.confirm, EqualTo("new_password"), ctx);
  }
}
