/** The input validators and date helpers at the top of system_manager.py:
    `require_nonempty`, `require_int_ge_0`, `parse_iso` and `iso_plus_days`.
    Values are typed (strings and integers), so Python's `None` and `int(...)`
    coercion of arbitrary objects do not arise.
 */
module Checks {
  import opened Wrappers
  import opened Text
  import opened Calendar

  /** `require_nonempty`: the stripped value, or ValidationError when only
      whitespace is left. */
  function RequireNonempty(value: string): (r: Result<string>)
    ensures r.Fail? <==> AllSpace(value)
    ensures r.Fail? ==> r.error == ValidationError
    ensures r.Ok? ==> r.value != [] && Trimmed(r.value) && r.value == Trim(value)
  {
    var v := Trim(value);
    if v == [] then Fail(ValidationError) else Ok(v)
  }

  /** A value already returned by `require_nonempty` passes it unchanged. */
  lemma RequireNonemptyIdempotent(value: string)
    requires RequireNonempty(value).Ok?
    ensures RequireNonempty(RequireNonempty(value).value) == RequireNonempty(value)
  {
  }

  /** `require_int_ge_0` on an integer. */
  function RequireNonNegative(value: int): (r: Result<nat>)
    ensures r.Ok? <==> value >= 0
    ensures r.Ok? ==> r.value == value
    ensures r.Fail? ==> r.error == ValidationError
  {
    if value < 0 then Fail(ValidationError) else Ok(value)
  }

  /** `parse_iso`: a valid date, or ValidationError. */
  function ParseDate(s: string): (r: Result<Date>)
    ensures r.Ok? <==> ParseIso(s).Some?
    ensures r.Ok? ==> Valid(r.value) && FormatIso(r.value) == s
    ensures r.Fail? ==> r.error == ValidationError
  {
    match ParseIso(s)
    case None => Fail(ValidationError)
    case Some(d) => FormatParse(s); Ok(d)
  }

  /** `iso_plus_days`: the date `days` after `start`, as text. A malformed
      start is a ValidationError; leaving years 1..9999 is an OverflowError. */
  function IsoPlusDays(start: string, days: int): (r: Result<string>)
    ensures ParseDate(start).Fail? ==> r == Fail(ValidationError)
    ensures ParseDate(start).Ok? ==>
      (r.Ok? <==> 1 <= Ordinal(ParseDate(start).value) + days <= MaxOrdinal)
    ensures ParseDate(start).Ok? && r.Fail? ==> r.error == OverflowError
    ensures r.Ok? ==>
      && ParseDate(start).Ok?
      && ParseDate(r.value).Ok?
      && Ordinal(ParseDate(r.value).value) == Ordinal(ParseDate(start).value) + days
  {
    var d :- ParseDate(start);
    match AddDays(d, days)
    case None => Fail(OverflowError)
    case Some(e) => ParseFormat(e); Ok(FormatIso(e))
  }
}
