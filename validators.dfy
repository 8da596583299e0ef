/**
 * The field validators the forms declare, as WTForms runs them. A field's
 * value is its data: the posted text, or None when the request does not post
 * it (a form built with `obj=` would keep the object's value instead, which
 * is not modelled). The validators run in order after the field's own
 * checks, followed by the form's inline `validate_<field>` method:
 *  - a failing `DataRequired` clears the errors, records its own and stops
 *    the chain;
 *  - `Optional` on an empty or blank value clears the errors and stops;
 *  - every other failure records an error and the chain goes on.
 * The field passes when no error is left.
 */
module Validators {
  import opened Wrappers
  import opened Text

  datatype Validator =
    | DataRequired
    | OptionalField
    | Length(min: int, max: int)        // -1 for no bound, as WTForms writes it
    | EqualTo(field: string)            // equal to the value of the named field
    | Email                             // the syntax check, decided by `emailOk`
    | Inline(passes: bool)              // the form's `validate_<field>` verdict

  /**
   * What a validator may consult besides its own field: the form's other
   * fields, and the verdict of the `Email()` syntax check, which WTForms
   * delegates to the `email_validator` package.
   */
  datatype Context = Context(fieldValue: string -> Option<string>, emailOk: string -> bool)

  /** No text, or only whitespace: what `DataRequired` refuses and `Optional` skips. */
  predicate Blank(value: Option<string>) {
    value.None? || Strip(value.value) == ""
  }

  /** `len(field.data)` as `Length` takes it: 0 when there is no text. */
  function DataLength(value: Option<string>): nat {
    if value.None? then 0 else |value.value|
  }

  predicate LengthOk(value: Option<string>, min: int, max: int) {
    !(DataLength(value) < min || (max != -1 && DataLength(value) > max))
  }

  /**
   * The number of errors the field holds after the validators of `chain` from
   * index `i` on, starting from `errors` already recorded. `DataRequired` on
   * blank data clears the errors before it stops the chain with its own
   * message, leaving exactly one; `Optional` clears them and stops silently.
   */
  function RunFrom(value: Option<string>, chain: seq<Validator>, i: nat, ctx: Context, errors: nat): nat
    decreases |chain| - i
  {
    if i >= |chain| then errors
    else match chain[i]
      case DataRequired => if Blank(value) then 1 else RunFrom(value, chain, i + 1, ctx, errors)
      case OptionalField => if Blank(value) then 0 else RunFrom(value, chain, i + 1, ctx, errors)
      case Length(min, max) => RunFrom(value, chain, i + 1, ctx, if LengthOk(value, min, max) then errors else errors + 1)
      case EqualTo(field) => RunFrom(value, chain, i + 1, ctx, if value == ctx.fieldValue(field) then errors else errors + 1)
      case Email => RunFrom(value, chain, i + 1, ctx, if value.Some? && ctx.emailOk(value.value) then errors else errors + 1)
      case Inline(passes) => RunFrom(value, chain, i + 1, ctx, if passes then errors else errors + 1)
  }

  /** The error count after the whole chain. */
  function RunChain(value: Option<string>, chain: seq<Validator>, ctx: Context, errors: nat): nat {
    RunFrom(value, chain, 0, ctx, errors)
  }

  /** The field passes its chain, given `errors` recorded before the chain runs. */
  predicate FieldValid(value: Option<string>, chain: seq<Validator>, ctx: Context, errors: nat) {
    RunChain(value, chain, ctx, errors) == 0
  }

  /** Running the tail of `prefix + chain` is running `chain`. */
  lemma {:induction false} RunFromShift(value: Option<string>, prefix: seq<Validator>, chain: seq<Validator>, j: nat, ctx: Context, errors: nat)
    ensures RunFrom(value, prefix + chain, |prefix| + j, ctx, errors) == RunFrom(value, chain, j, ctx, errors)
    decreases |chain| - j
  {
    if j < |chain| {
      assert (prefix + chain)[|prefix| + j] == chain[j];
      RunFromShift(value, prefix, chain, j + 1, ctx, errors);
      RunFromShift(value, prefix, chain, j + 1, ctx, errors + 1);
    }
  }

  /** Leading `Optional`: a blank value passes whatever follows and whatever was recorded before. */
  lemma OptionalSkipsBlank(value: Option<string>, chain: seq<Validator>, ctx: Context, errors: nat)
    requires Blank(value)
    ensures FieldValid(value, [OptionalField] + chain, ctx, errors)
  {
  }

  /** Leading `Optional` on a value that is not blank: the rest of the chain decides. */
  lemma OptionalOnText(value: Option<string>, chain: seq<Validator>, ctx: Context, errors: nat)
    requires !Blank(value)
    ensures FieldValid(value, [OptionalField] + chain, ctx, errors) <==> FieldValid(value, chain, ctx, errors)
  {
    RunFromShift(value, [OptionalField], chain, 0, ctx, errors);
  }

  function Repeat(v: Validator, n: nat): (r: seq<Validator>)
    ensures |r| == n && forall i :: 0 <= i < n ==> r[i] == v
  {
    if n == 0 then [] else [v] + Repeat(v, n - 1)
  }

  /** From index `k` inside a run of `DataRequired`s: a blank value leaves exactly one error, any other skips the run. */
  lemma {:induction false} RepeatedDataRequiredFrom(value: Option<string>, chain: seq<Validator>, ctx: Context, errors: nat, n: nat, k: nat)
    requires k < n
    ensures RunFrom(value, Repeat(DataRequired, n) + chain, k, ctx, errors)
         == if Blank(value) then 1 else RunFrom(value, chain, 0, ctx, errors)
    decreases n - k
  {
    assert (Repeat(DataRequired, n) + chain)[k] == DataRequired;
    if !Blank(value) {
      if k + 1 < n {
        RepeatedDataRequiredFrom(value, chain, ctx, errors, n, k + 1);
      } else {
        RunFromShift(value, Repeat(DataRequired, n), chain, 0, ctx, errors);
      }
    }
  }

  /**
   * Any positive number of leading `DataRequired`s gives the verdict one
   * gives: the first stops a blank value and the others pass the rest.
   */
  lemma RepeatedDataRequired(value: Option<string>, chain: seq<Validator>, ctx: Context, errors: nat, n: nat)
    requires n >= 1
    ensures RunChain(value, Repeat(DataRequired, n) + chain, ctx, errors) == RunChain(value, [DataRequired] + chain, ctx, errors)
  {
    RepeatedDataRequiredFrom(value, chain, ctx, errors, n, 0);
    RepeatedDataRequiredFrom(value, chain, ctx, errors, 1, 0);
    assert Repeat(DataRequired, 1) == [DataRequired];
  }

  /** Whether a validator accepts `value`. */
  predicate Accepts(v: Validator, value: Option<string>, ctx: Context) {
    match v
    case DataRequired => !Blank(value)
    case OptionalField => true
    case Length(min, max) => LengthOk(value, min, max)
    case EqualTo(field) => value == ctx.fieldValue(field)
    case Email => value.Some? && ctx.emailOk(value.value)
    case Inline(passes) => passes
  }

  /** A validator that records an error but never stops the chain. */
  predicate IsCheck(v: Validator) {
    !v.DataRequired? && !v.OptionalField?
  }

  /** A chain of checks passes exactly when nothing was recorded before and every check accepts. */
  lemma {:induction false} ChecksFrom(value: Option<string>, chain: seq<Validator>, i: nat, ctx: Context, errors: nat)
    requires forall j :: 0 <= j < |chain| ==> IsCheck(chain[j])
    ensures RunFrom(value, chain, i, ctx, errors) == 0 <==> errors == 0 && forall j :: i <= j < |chain| ==> Accepts(chain[j], value, ctx)
    ensures RunFrom(value, chain, i, ctx, errors) >= errors
    decreases |chain| - i
  {
    if i < |chain| {
      ChecksFrom(value, chain, i + 1, ctx, errors);
      ChecksFrom(value, chain, i + 1, ctx, errors + 1);
    }
  }

  /**
   * A chain of `DataRequired` then checks passes exactly when the value is
   * not blank and every check accepts it.
   */
  lemma RequiredThenChecks(value: Option<string>, checks: seq<Validator>, ctx: Context)
    requires forall j :: 0 <= j < |checks| ==> IsCheck(checks[j])
    ensures FieldValid(value, [DataRequired] + checks, ctx, 0)
        <==> !Blank(value) && forall j :: 0 <= j < |checks| ==> Accepts(checks[j], value, ctx)
  {
    RunFromShift(value, [DataRequired], checks, 0, ctx, 0);
    ChecksFrom(value, checks, 0, ctx, 0);
  }

  /**
   * A chain of `Optional` then checks passes exactly when the value is blank
   * or every check accepts it.
   */
  lemma OptionalThenChecks(value: Option<string>, checks: seq<Validator>, ctx: Context)
    requires forall j :: 0 <= j < |checks| ==> IsCheck(checks[j])
    ensures FieldValid(value, [OptionalField] + checks, ctx, 0)
        <==> Blank(value) || forall j :: 0 <= j < |checks| ==> Accepts(checks[j], value, ctx)
  {
    RunFromShift(value, [OptionalField], checks, 0, ctx, 0);
    ChecksFrom(value, checks, 0, ctx, 0);
  }

  /** `[DataRequired, a]` for a check `a`. */
  lemma RequiredThenOne(value: Option<string>, a: Validator, ctx: Context)
    requires IsCheck(a)
    ensures FieldValid(value, [DataRequired, a], ctx, 0) <==> !Blank(value) && Accepts(a, value, ctx)
  {
    assert [DataRequired] + [a] == [DataRequired, a];
    assert [a][0] == a;
    RequiredThenChecks(value, [a], ctx);
  }

  /** `[DataRequired, a, b]` for checks `a` and `b`. */
  lemma RequiredThenTwo(value: Option<string>, a: Validator, b: Validator, ctx: Context)
    requires IsCheck(a) && IsCheck(b)
    ensures FieldValid(value, [DataRequired, a, b], ctx, 0) <==> !Blank(value) && Accepts(a, value, ctx) && Accepts(b, value, ctx)
  {
    assert [DataRequired] + [a, b] == [DataRequired, a, b];
    assert [a, b][0] == a && [a, b][1] == b;
    RequiredThenChecks(value, [a, b], ctx);
  }

  /** `[DataRequired, a, b, c]` for checks `a`, `b` and `c`. */
  lemma RequiredThenThree(value: Option<string>, a: Validator, b: Validator, c: Validator, ctx: Context)
    requires IsCheck(a) && IsCheck(b) && IsCheck(c)
    ensures FieldValid(value, [DataRequired, a, b, c], ctx, 0)
        <==> !Blank(value) && Accepts(a, value, ctx) && Accepts(b, value, ctx) && Accepts(c, value, ctx)
  {
    assert [DataRequired] + [a, b, c] == [DataRequired, a, b, c];
    assert [a, b, c][0] == a && [a, b, c][1] == b && [a, b, c][2] == c;
    RequiredThenChecks(value, [a, b, c], ctx);
  }

  /** `[Optional, a]` for a check `a`. */
  lemma OptionalThenOne(value: Option<string>, a: Validator, ctx: Context)
    requires IsCheck(a)
    ensures FieldValid(value, [OptionalField, a], ctx, 0) <==> Blank(value) || Accepts(a, value, ctx)
  {
    assert [OptionalField] + [a] == [OptionalField, a];
    assert [a][0] == a;
    OptionalThenChecks(value, [a], ctx);
  }

  /** A lone check passes exactly when it accepts. */
  lemma OneCheck(value: Option<string>, a: Validator, ctx: Context)
    requires IsCheck(a)
    ensures FieldValid(value, [a], ctx, 0) <==> Accepts(a, value, ctx)
  {
    assert [a][0] == a;
    ChecksFrom(value, [a], 0, ctx, 0);
  }
}
