/**
 * The web DTOs: `CarsRequest`, the body of create, replace and patch, with the
 * constraints declared on it per group, and `CarsDto`, the body returned.
 */
module Dto {
  import opened Wrappers
  import opened Text
  import opened Validation
  import Vin
  import Cars

  datatype CarsRequest = CarsRequest(
    make: Option<string>,
    model: Option<string>,
    manufactureYear: Option<int>,
    vin: Option<string>,
    odometerKm: Option<int>,
    version: Option<int>)

  datatype CarsDto = CarsDto(
    id: Option<int>,
    make: Option<string>,
    model: Option<string>,
    manufactureYear: Option<int>,
    vin: Option<string>,
    odometerKm: Option<int>,
    version: Option<int>,
    createdAt: Option<int>,
    updatedAt: Option<int>)

  /** The request constraints of each group, written out as one condition. */
  predicate RequestAdmits(r: CarsRequest, g: Group, defaultGroups: set<Group>) {
    && (match g
        case OnCreate =>
          && NotBlank(r.make) && |r.make.value| <= Cars.MakeMax
          && NotBlank(r.model) && |r.model.value| <= Cars.ModelMax
          && r.manufactureYear.Some? && r.manufactureYear.value >= Cars.MinYear
          && r.vin.Some? && Vin.MatchesPattern(r.vin.value)
          && r.version.None?
        case OnUpdate =>
          && NotBlank(r.make) && |r.make.value| <= Cars.MakeMax
          && NotBlank(r.model) && |r.model.value| <= Cars.ModelMax
          && r.manufactureYear.Some? && r.manufactureYear.value >= Cars.MinYear
          && r.vin.None?
          && r.version.Some?
        case OnPatch =>
          && r.make.None? && r.model.None? && r.vin.None?
          && r.version.Some?)
    && (g in defaultGroups && r.odometerKm.Some? ==> r.odometerKm.value >= 0)
  }

  /** make and model: `@NotBlank` and `@Size` under OnCreate and OnUpdate, `@Null` under OnPatch. */
  function RequestTextViolations(path: string, v: Option<string>, max: nat, g: Group): (vs: seq<Violation>)
    ensures vs == [] <==> (if g == OnPatch then v.None? else NotBlank(v) && |v.value| <= max)
    ensures forall x :: x in vs ==> x.path == path
  {
    var checks := CheckNotBlank(path, v) + CheckSizeMax(path, v, max);
    assert checks == [] <==> CheckNotBlank(path, v) == [] && CheckSizeMax(path, v, max) == [];
    assert g != OnPatch ==> g in {OnCreate, OnUpdate};
    InGroups(g, {OnCreate, OnUpdate}, checks) + InGroups(g, {OnPatch}, CheckNull(path, v))
  }

  function RequestYearViolations(r: CarsRequest, g: Group): (vs: seq<Violation>)
    ensures vs == [] <==> (g != OnPatch ==> r.manufactureYear.Some? && r.manufactureYear.value >= Cars.MinYear)
    ensures forall x :: x in vs ==> x.path == "manufactureYear"
  {
    var notNull := CheckNotNull("manufactureYear", r.manufactureYear);
    var min := CheckMin("manufactureYear", r.manufactureYear, Cars.MinYear);
    assert notNull + min == [] <==> notNull == [] && min == [];
    assert g != OnPatch ==> g in {OnCreate, OnUpdate};
    InGroups(g, {OnCreate, OnUpdate}, notNull + min)
  }

  /** vin: `@Vin` under OnCreate, `@Null` under OnUpdate and OnPatch. */
  function RequestVinViolations(r: CarsRequest, g: Group): (vs: seq<Violation>)
    ensures vs == [] <==> (if g == OnCreate then r.vin.Some? && Vin.MatchesPattern(r.vin.value) else r.vin.None?)
    ensures forall x :: x in vs ==> x.path == "vin"
    ensures g == OnCreate ==> forall x :: x in vs ==> x.constraint == VinC
  {
    assert g != OnCreate ==> g in {OnUpdate, OnPatch};
    InGroups(g, {OnCreate}, CheckVin("vin", r.vin)) + InGroups(g, {OnUpdate, OnPatch}, CheckNull("vin", r.vin))
  }

  /** version: `@Null` under OnCreate, `@NotNull` under OnUpdate and OnPatch. */
  function RequestVersionViolations(r: CarsRequest, g: Group): (vs: seq<Violation>)
    ensures vs == [] <==> (if g == OnCreate then r.version.None? else r.version.Some?)
    ensures forall x :: x in vs ==> x.path == "version"
  {
    assert g != OnCreate ==> g in {OnUpdate, OnPatch};
    InGroups(g, {OnCreate}, CheckNull("version", r.version))
    + InGroups(g, {OnUpdate, OnPatch}, CheckNotNull("version", r.version))
  }

  /**
   * The violations the HTTP edge reports for a request body validated under
   * `g`, in field order; none exactly when the request satisfies its group.
   */
  function RequestViolations(r: CarsRequest, g: Group, defaultGroups: set<Group>): (vs: seq<Violation>)
    ensures vs == [] <==> RequestAdmits(r, g, defaultGroups)
    ensures forall v :: v in vs ==> v.path in {"make", "model", "manufactureYear", "vin", "odometerKm", "version"}
  {
    var mk := RequestTextViolations("make", r.make, Cars.MakeMax, g);
    var md := RequestTextViolations("model", r.model, Cars.ModelMax, g);
    var y := RequestYearViolations(r, g);
    var vn := RequestVinViolations(r, g);
    var o := InGroups(g, defaultGroups, CheckPositiveOrZero("odometerKm", r.odometerKm));
    var ve := RequestVersionViolations(r, g);
    var vs := mk + md + y + vn + o + ve;
    assert |vs| == |mk| + |md| + |y| + |vn| + |o| + |ve|;
    assert forall v :: v in vs ==> v in mk || v in md || v in y || v in vn || v in o || v in ve;
    assert vs == [] <==> RequestAdmits(r, g, defaultGroups) by {
      if g == OnCreate {
      } else if g == OnUpdate {
      } else {
      }
    }
    vs
  }

  /**
   * The raw request VIN is checked before any normalisation, so under OnCreate
   * a VIN with a lower-case letter (or any padding) is reported as one `@Vin`
   * violation on `vin`.
   */
  lemma LowerCaseVinRejectedOnCreate(r: CarsRequest, defaultGroups: set<Group>, i: nat)
    requires r.vin.Some? && i < |r.vin.value| && (IsAsciiLower(r.vin.value[i]) || IsTrimmable(r.vin.value[i]))
    ensures Violation("vin", VinC) in RequestViolations(r, OnCreate, defaultGroups)
  {
    assert !Vin.IsVinChar(r.vin.value[i]);
    var vn := RequestVinViolations(r, OnCreate);
    assert vn != [] && vn[0] == Violation("vin", VinC);
    var vs := RequestViolations(r, OnCreate, defaultGroups);
    var mk := RequestTextViolations("make", r.make, Cars.MakeMax, OnCreate);
    var md := RequestTextViolations("model", r.model, Cars.ModelMax, OnCreate);
    var y := RequestYearViolations(r, OnCreate);
    assert vs[|mk + md + y|] == vn[0];
  }
}
