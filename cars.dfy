/**
 * The `Cars` JPA entity: its fields, the per-group constraints declared on
 * them, the database column rules, and `normalize()`, which runs before every
 * insert and update.
 */
module Cars {
  import opened Wrappers
  import opened Text
  import opened Validation
  import Vin

  const MakeMax: nat := 64
  const ModelMax: nat := 128
  const MinYear: int := 1886

  /**
   * One row of the `cars` table. Every field may be null, as the Java wrapper
   * fields may; timestamps are instants of an abstract clock.
   */
  datatype Car = Car(
    id: Option<int>,
    make: Option<string>,
    model: Option<string>,
    manufactureYear: Option<int>,
    vin: Option<string>,
    odometerKm: Option<int>,
    version: Option<int>,
    createdAt: Option<int>,
    updatedAt: Option<int>)

  function TrimOpt(v: Option<string>): Option<string> {
    if v.Some? then Some(Trim(v.value)) else None
  }

  function CanonicalOpt(v: Option<string>): Option<string> {
    if v.Some? then Some(Canonical(v.value)) else None
  }

  /** The row `normalize()` leaves behind. */
  function Normalized(c: Car): (r: Car)
    ensures r.vin.Some? <==> c.vin.Some?
    ensures r.make.Some? <==> c.make.Some?
    ensures r.model.Some? <==> c.model.Some?
    ensures c.vin.Some? ==> r.vin.value == ToUpper(Trim(c.vin.value))
    ensures c.make.Some? ==> r.make.value == Trim(c.make.value)
    ensures c.model.Some? ==> r.model.value == Trim(c.model.value)
    ensures r.(vin := c.vin, make := c.make, model := c.model) == c
  {
    c.(vin := CanonicalOpt(c.vin), make := TrimOpt(c.make), model := TrimOpt(c.model))
  }

  /** A row is normal when `normalize()` would not change it. */
  predicate IsNormal(c: Car) {
    Normalized(c) == c
  }

  /** Normalising twice is normalising once. */
  lemma NormalizedIdempotent(c: Car)
    ensures Normalized(Normalized(c)) == Normalized(c)
  {
    if c.vin.Some? { CanonicalIdempotent(c.vin.value); }
    if c.make.Some? { TrimIdempotent(c.make.value); }
    if c.model.Some? { TrimIdempotent(c.model.value); }
  }

  /**
   * Two VINs that differ only by ASCII case or surrounding padding normalise
   * alike: `d`'s VIN is any spelling `x` of `c`'s canonical VIN, padded.
   */
  lemma NormalizedVinOfVariant(c: Car, d: Car, x: string, pre: string, post: string)
    requires c.vin.Some? && ToUpper(x) == Canonical(c.vin.value)
    requires d.vin == Some(pre + x + post)
    requires AllTrimmable(pre) && AllTrimmable(post)
    ensures Normalized(d).vin == Normalized(c).vin
  {
    CanonicalIdempotent(c.vin.value);
    CanonicalOfVariant(Canonical(c.vin.value), x, pre, post);
  }

  /**
   * The column rules of the `cars` table: make, model, manufacture_year, vin,
   * created_at and updated_at are NOT NULL, and make, model and vin are at most
   * 64, 128 and 17 chars. A row breaking one is rejected by the database.
   */
  predicate ColumnsAdmit(c: Car) {
    && c.make.Some? && |c.make.value| <= MakeMax
    && c.model.Some? && |c.model.value| <= ModelMax
    && c.manufactureYear.Some?
    && c.vin.Some? && |c.vin.value| <= Vin.Length
  }

  /** The entity constraints of each group, written out as one condition. */
  predicate EntityAdmits(c: Car, g: Group, defaultGroups: set<Group>) {
    && (g != OnPatch ==>
          && NotBlank(c.make) && |c.make.value| <= MakeMax
          && NotBlank(c.model) && |c.model.value| <= ModelMax
          && c.manufactureYear.Some? && c.manufactureYear.value >= MinYear)
    && c.vin.Some? && Vin.MatchesPattern(c.vin.value)
    && (g in defaultGroups && c.odometerKm.Some? ==> c.odometerKm.value >= 0)
    && c.version.Some?
  }

  /**
   * An entity that passes OnCreate or OnUpdate validation fits the columns
   * once normalised: trimming never lengthens make or model, and a VIN the
   * pattern accepts is already canonical and 17 chars long.
   */
  lemma AdmittedFitsColumns(c: Car, g: Group, defaultGroups: set<Group>)
    requires EntityAdmits(c, g, defaultGroups) && g != OnPatch
    ensures ColumnsAdmit(Normalized(c))
  {
    TrimSpec(c.make.value);
    TrimSpec(c.model.value);
    Vin.ValidIsCanonical(c.vin.value);
  }

  /** Violations of the constraints declared on one string field under OnCreate and OnUpdate. */
  function TextFieldViolations(path: string, v: Option<string>, max: nat, g: Group): (vs: seq<Violation>)
    ensures vs == [] <==> (g != OnPatch ==> NotBlank(v) && |v.value| <= max)
    ensures forall x :: x in vs ==> x.path == path
    ensures g == OnPatch ==> vs == []
  {
    var checks := CheckNotBlank(path, v) + CheckSizeMax(path, v, max);
    assert checks == [] <==> CheckNotBlank(path, v) == [] && CheckSizeMax(path, v, max) == [];
    assert g != OnPatch ==> g in {OnCreate, OnUpdate};
    InGroups(g, {OnCreate, OnUpdate}, checks)
  }

  function YearViolations(c: Car, g: Group): (vs: seq<Violation>)
    ensures vs == [] <==> (g != OnPatch ==> c.manufactureYear.Some? && c.manufactureYear.value >= MinYear)
    ensures forall x :: x in vs ==> x.path == "manufactureYear"
    ensures g == OnPatch ==> vs == []
  {
    var notNull := CheckNotNull("manufactureYear", c.manufactureYear);
    var min := CheckMin("manufactureYear", c.manufactureYear, MinYear);
    assert notNull + min == [] <==> notNull == [] && min == [];
    assert g != OnPatch ==> g in {OnCreate, OnUpdate};
    InGroups(g, {OnCreate, OnUpdate}, notNull + min)
  }

  /** Violations that apply under every group: vin, odometer (Default group only) and version. */
  function CommonViolations(c: Car, g: Group, defaultGroups: set<Group>): (vs: seq<Violation>)
    ensures vs == [] <==>
      && c.vin.Some? && Vin.MatchesPattern(c.vin.value)
      && (g in defaultGroups && c.odometerKm.Some? ==> c.odometerKm.value >= 0)
      && c.version.Some?
    ensures forall x :: x in vs ==> x.path in {"vin", "odometerKm", "version"}
    ensures forall x :: x in vs && x.path == "vin" ==> x.constraint == VinC
  {
    CheckVin("vin", c.vin)
    + InGroups(g, defaultGroups, CheckPositiveOrZero("odometerKm", c.odometerKm))
    + CheckNotNull("version", c.version)
  }

  /**
   * The violations `validator.validate(entity, g)` reports, in field order.
   * There are none exactly when the entity satisfies its group's constraints;
   * under OnPatch only vin, odometerKm and version are looked at.
   */
  function EntityViolations(c: Car, g: Group, defaultGroups: set<Group>): (vs: seq<Violation>)
    ensures vs == [] <==> EntityAdmits(c, g, defaultGroups)
    ensures forall v :: v in vs && v.path == "vin" ==> v.constraint == VinC
    ensures g == OnPatch ==> forall v :: v in vs ==> v.path in {"vin", "odometerKm", "version"}
  {
    var a := TextFieldViolations("make", c.make, MakeMax, g);
    var b := TextFieldViolations("model", c.model, ModelMax, g);
    var y := YearViolations(c, g);
    var k := CommonViolations(c, g, defaultGroups);
    assert forall v :: v in a + b + y + k <==> v in a || v in b || v in y || v in k;
    a + b + y + k
  }

  /** The `Cars` object the service loads, mutates through setters and saves. */
  class CarEntity {
    var id: Option<int>
    var make: Option<string>
    var model: Option<string>
    var manufactureYear: Option<int>
    var vin: Option<string>
    var odometerKm: Option<int>
    var version: Option<int>
    var createdAt: Option<int>
    var updatedAt: Option<int>

    /** The row this object currently holds. */
    function Value(): Car
      reads this
    {
      Car(id, make, model, manufactureYear, vin, odometerKm, version, createdAt, updatedAt)
    }

    constructor FromValue(c: Car)
      ensures Value() == c
    {
      id, make, model, manufactureYear := c.id, c.make, c.model, c.manufactureYear;
      vin, odometerKm, version, createdAt, updatedAt := c.vin, c.odometerKm, c.version, c.createdAt, c.updatedAt;
    }

    /** `normalize()`: the pre-persist and pre-update callback. */
    method Normalize()
      modifies this
      ensures Value() == Normalized(old(Value()))
    {
      if vin.Some? { vin := Some(ToUpper(Trim(vin.value))); }
      if make.Some? { make := Some(Trim(make.value)); }
      if model.Some? { model := Some(Trim(model.value)); }
    }

    /** What the persistence provider writes back into the entity after a save. */
    method SetGenerated(newId: Option<int>, newVersion: Option<int>, created: Option<int>, updated: Option<int>)
      modifies this
      ensures Value() == old(Value()).(id := newId, version := newVersion, createdAt := created, updatedAt := updated)
    {
      id, version, createdAt, updatedAt := newId, newVersion, created, updated;
    }
  }
}
