/**
 * `CarsMapper`: request to entity, entity to DTO, and the null-ignoring copy
 * of a patch request onto a loaded entity.
 */
module CarsMapper {
  import opened Wrappers
  import opened Cars
  import opened Dto

  /** `map(Cars)`: every entity field is carried into the DTO unchanged. */
  function ToDto(c: Car): (d: CarsDto)
    ensures d.id == c.id && d.version == c.version
    ensures d.make == c.make && d.model == c.model && d.manufactureYear == c.manufactureYear
    ensures d.vin == c.vin && d.odometerKm == c.odometerKm
    ensures d.createdAt == c.createdAt && d.updatedAt == c.updatedAt
  {
    CarsDto(c.id, c.make, c.model, c.manufactureYear, c.vin, c.odometerKm, c.version, c.createdAt, c.updatedAt)
  }

  /** Two rows map to the same DTO only if they are the same row. */
  lemma ToDtoInjective(c: Car, d: Car)
    requires ToDto(c) == ToDto(d)
    ensures c == d
  {
  }

  /**
   * `map(CarsRequest)`: make, model, manufactureYear, vin and odometerKm are
   * copied as they are; id, version, createdAt and updatedAt are left unset.
   */
  function FromRequest(r: CarsRequest): (c: Car)
    ensures c.make == r.make && c.model == r.model && c.manufactureYear == r.manufactureYear
    ensures c.vin == r.vin && c.odometerKm == r.odometerKm
    ensures c.id.None? && c.version.None? && c.createdAt.None? && c.updatedAt.None?
  {
    Car(None, r.make, r.model, r.manufactureYear, r.vin, r.odometerKm, None, None, None)
  }

  /**
   * The row `updateEntityFromRequest` leaves: make, model, manufactureYear and
   * odometerKm take the request's value where it is non-null; id, vin, version,
   * createdAt and updatedAt are never touched.
   */
  function Patched(c: Car, r: CarsRequest): (p: Car)
    ensures r.make.Some? ==> p.make == r.make
    ensures r.model.Some? ==> p.model == r.model
    ensures r.manufactureYear.Some? ==> p.manufactureYear == r.manufactureYear
    ensures r.odometerKm.Some? ==> p.odometerKm == r.odometerKm
    ensures r.make.None? ==> p.make == c.make
    ensures r.model.None? ==> p.model == c.model
    ensures r.manufactureYear.None? ==> p.manufactureYear == c.manufactureYear
    ensures r.odometerKm.None? ==> p.odometerKm == c.odometerKm
    ensures p.id == c.id && p.vin == c.vin && p.version == c.version
    ensures p.createdAt == c.createdAt && p.updatedAt == c.updatedAt
  {
    c.(make := if r.make.Some? then r.make else c.make,
       model := if r.model.Some? then r.model else c.model,
       manufactureYear := if r.manufactureYear.Some? then r.manufactureYear else c.manufactureYear,
       odometerKm := if r.odometerKm.Some? then r.odometerKm else c.odometerKm)
  }

  /** A request whose fields are all null leaves the entity as it was. */
  lemma PatchedByEmptyRequest(c: Car, r: CarsRequest)
    requires r.make.None? && r.model.None? && r.manufactureYear.None? && r.odometerKm.None?
    ensures Patched(c, r) == c
  {
  }

  /** Applying the same patch twice is applying it once. */
  lemma PatchedIdempotent(c: Car, r: CarsRequest)
    ensures Patched(Patched(c, r), r) == Patched(c, r)
  {
  }

  /** `updateEntityFromRequest(req, entity)`: copies the non-null request fields onto the entity in place. */
  method UpdateEntityFromRequest(r: CarsRequest, e: CarEntity)
    modifies e
    ensures e.Value() == Patched(old(e.Value()), r)
  {
    if r.make.Some? { e.make := r.make; }
    if r.model.Some? { e.model := r.model; }
    if r.manufactureYear.Some? { e.manufactureYear := r.manufactureYear; }
    if r.odometerKm.Some? { e.odometerKm := r.odometerKm; }
  }
}
