/**
 * Validation groups and the constraint kinds the car entity and request use,
 * with one checker per kind. A constraint that names groups applies when the
 * group being validated is among them; a constraint that names none belongs to
 * the Default group and applies only under the groups that extend Default,
 * which the caller passes in as `defaultGroups`.
 */
module Validation {
  import opened Wrappers
  import opened Text
  import Vin

  datatype Group = OnCreate | OnUpdate | OnPatch

  datatype Constraint =
    | NotBlankC
    | SizeMax(max: nat)
    | NotNullC
    | Min(bound: int)
    | NullC
    | VinC
    | PositiveOrZero
    | PathVinPattern

  /** One violation: the property path and the constraint that failed. */
  datatype Violation = Violation(path: string, constraint: Constraint)

  /**
   * The message a violation reports. `@Vin` and the `getByVin` path pattern carry
   * their own fixed messages; every other constraint reports its standard message
   * key, whose localised text is outside this model.
   */
  function Message(c: Constraint): string {
    match c
    case VinC => Vin.Message
    case PathVinPattern => "VIN invalid"
    case NotBlankC => "{jakarta.validation.constraints.NotBlank.message}"
    case SizeMax(_) => "{jakarta.validation.constraints.Size.message}"
    case NotNullC => "{jakarta.validation.constraints.NotNull.message}"
    case Min(_) => "{jakarta.validation.constraints.Min.message}"
    case NullC => "{jakarta.validation.constraints.Null.message}"
    case PositiveOrZero => "{jakarta.validation.constraints.PositiveOrZero.message}"
  }

  function CheckNotBlank(path: string, v: Option<string>): (vs: seq<Violation>)
    ensures vs == [] <==> NotBlank(v)
  {
    if NotBlank(v) then [] else [Violation(path, NotBlankC)]
  }

  /** `@Size(max = n)`: null is accepted; length counts chars. */
  function CheckSizeMax(path: string, v: Option<string>, max: nat): (vs: seq<Violation>)
    ensures vs == [] <==> (v.Some? ==> |v.value| <= max)
  {
    if v.Some? && |v.value| > max then [Violation(path, SizeMax(max))] else []
  }

  function CheckNotNull<T>(path: string, v: Option<T>): (vs: seq<Violation>)
    ensures vs == [] <==> v.Some?
  {
    if v.None? then [Violation(path, NotNullC)] else []
  }

  function CheckNull<T>(path: string, v: Option<T>): (vs: seq<Violation>)
    ensures vs == [] <==> v.None?
  {
    if v.Some? then [Violation(path, NullC)] else []
  }

  /** `@Min(bound)`: null is accepted. */
  function CheckMin(path: string, v: Option<int>, bound: int): (vs: seq<Violation>)
    ensures vs == [] <==> (v.Some? ==> v.value >= bound)
  {
    if v.Some? && v.value < bound then [Violation(path, Min(bound))] else []
  }

  /** `@PositiveOrZero`: null is accepted. */
  function CheckPositiveOrZero(path: string, v: Option<int>): (vs: seq<Violation>)
    ensures vs == [] <==> (v.Some? ==> v.value >= 0)
  {
    if v.Some? && v.value < 0 then [Violation(path, PositiveOrZero)] else []
  }

  /** `@Vin` is reported as a single violation whatever part of it fails. */
  function CheckVin(path: string, v: Option<string>): (vs: seq<Violation>)
    ensures |vs| <= 1
    ensures vs == [] <==> v.Some? && Vin.MatchesPattern(v.value)
    ensures forall x :: x in vs ==> x == Violation(path, VinC) && Message(x.constraint) == Vin.Message
  {
    Vin.ValidIffPattern(v);
    if Vin.IsValid(v) then [] else [Violation(path, VinC)]
  }

  /** The checks of a constraint restricted to `groups`, as validated under `g`. */
  function InGroups(g: Group, groups: set<Group>, vs: seq<Violation>): seq<Violation> {
    if g in groups then vs else []
  }
}
