/**
 * What the service promises, proved about its transition functions: lookups
 * by VIN, what create, replace, patch and delete do to the table and the
 * events, and what `list` reports.
 */
module CarsProperties {
  import opened Wrappers
  import opened Text
  import opened Validation
  import opened Cars
  import opened Dto
  import CarsMapper
  import Vin
  import opened CarsService

  // ------------------------------------------------------- rows and lookups

  /** Every row of the table is listed by `Rows`, and `Rows` lists nothing else. */
  lemma RowsAreTheTable(s: StoreState)
    requires Inv(s)
    ensures forall id :: id in s.rows ==> s.rows[id] in Rows(s)
    ensures forall c :: c in Rows(s) ==> c.id.Some? && c.id.value in s.rows && s.rows[c.id.value] == c
  {
    var ids := IdsBelow(s.rows, s.nextId);
    forall id | id in s.rows
      ensures s.rows[id] in Rows(s)
    {
      assert id in ids;
      var k :| 0 <= k < |ids| && ids[k] == id;
      assert Rows(s)[k] == s.rows[id];
    }
    forall c | c in Rows(s)
      ensures c.id.Some? && c.id.value in s.rows && s.rows[c.id.value] == c
    {
      var k :| 0 <= k < |Rows(s)| && Rows(s)[k] == c;
      assert ids[k] in ids;
    }
  }

  /** A stored VIN is found, and it is found on its own row, since VINs are unique. */
  lemma FindByVinFindsRow(s: StoreState, id: int)
    requires Inv(s) && id in s.rows
    ensures FindByVin(s, s.rows[id].vin) == Some(s.rows[id])
  {
    RowsAreTheTable(s);
    var r := FindByVin(s, s.rows[id].vin);
    assert r.Some?;
    var c := r.value;
    assert s.rows[c.id.value].vin == s.rows[id].vin;
  }

  /** A stored VIN is canonical. */
  lemma StoredVinIsCanonical(s: StoreState, id: int)
    requires Inv(s) && id in s.rows
    ensures s.rows[id].vin.Some?
    ensures Canonical(s.rows[id].vin.value) == s.rows[id].vin.value
  {
    var c := s.rows[id];
    assert Normalized(c) == c;
    assert Normalized(c).vin == CanonicalOpt(c.vin);
  }

  /** `getByVin` returns a car for every argument that canonicalises to its VIN. */
  lemma GetByVinFindsEquivalent(s: StoreState, id: int, w: string)
    requires Inv(s) && id in s.rows
    requires Some(Canonical(w)) == s.rows[id].vin
    ensures GetByVin(s, Some(w)) == Ok(CarsMapper.ToDto(s.rows[id]))
  {
    FindByVinFindsRow(s, id);
  }

  /**
   * Case and whitespace do not matter to `getByVin`: any spelling `x` of a
   * stored VIN, in any mix of ASCII case and padded, finds that car.
   */
  lemma GetByVinFindsVariant(s: StoreState, id: int, x: string, pre: string, post: string)
    requires Inv(s) && id in s.rows
    requires s.rows[id].vin == Some(ToUpper(x))
    requires AllTrimmable(pre) && AllTrimmable(post)
    ensures GetByVin(s, Some(pre + x + post)) == Ok(CarsMapper.ToDto(s.rows[id]))
  {
    StoredVinIsCanonical(s, id);
    var v := s.rows[id].vin.value;
    CanonicalOfVariant(v, x, pre, post);
    GetByVinFindsEquivalent(s, id, pre + x + post);
  }

  /** `getByVin` finds nothing exactly when no stored VIN is the canonical argument; null finds nothing. */
  lemma GetByVinNotFound(s: StoreState, vin: Option<string>)
    requires Inv(s)
    ensures GetByVin(s, vin) == NotFound <==> forall id :: id in s.rows ==> s.rows[id].vin != CanonicalOpt(vin)
    ensures vin.None? ==> GetByVin(s, vin) == NotFound
  {
    var v := CanonicalOpt(vin);
    RowsAreTheTable(s);
    assert GetByVin(s, vin) == NotFound <==> FindByVin(s, v).None?;
    if FindByVin(s, v).None? {
      forall id | id in s.rows ensures s.rows[id].vin != v {
        assert s.rows[id] in Rows(s);
      }
    } else {
      var c := FindByVin(s, v).value;
      assert c in Rows(s);
      assert c.id.value in s.rows && s.rows[c.id.value].vin == v;
    }
  }

  // ----------------------------------------------------------------- create

  /** The row `create` would insert for `req`: the mapped request, normalised. */
  function CreateCandidate(req: CarsRequest): Car {
    Normalized(CarsMapper.FromRequest(req))
  }

  /**
   * `create` succeeds exactly when the normalised request fits the columns and
   * its VIN is not stored yet. It then stores it under the next id with
   * version 0, publishes one `CarCreated` with that id and the canonical VIN,
   * and returns the stored row.
   */
  lemma CreateSuccess(s: StoreState, req: CarsRequest)
    requires Inv(s)
    ensures var n := CreateCandidate(req);
      CreateSpec(s, req).0.Ok? <==> ColumnsAdmit(n) && !VinTakenByOther(s.rows, n.vin, None)
    ensures CreateSpec(s, req).0.Ok? ==>
      var (r, s') := CreateSpec(s, req);
      var row := s'.rows[s.nextId];
      && s.nextId !in s.rows
      && s'.rows == s.rows[s.nextId := row]
      && s'.nextId == s.nextId + 1
      && row.id == Some(s.nextId) && row.version == Some(0)
      && row.vin == CanonicalOpt(req.vin) && row.make == TrimOpt(req.make) && row.model == TrimOpt(req.model)
      && row.manufactureYear == req.manufactureYear && row.odometerKm == req.odometerKm
      && row.createdAt == row.updatedAt == Some(s'.clock)
      && s'.events == s.events + [CarCreated(s.nextId, Canonical(req.vin.value))]
      && r == Ok(CarsMapper.ToDto(row))
  {
  }

  /** A `create` that fails publishes nothing and stores nothing, and fails only on the data-integrity checks. */
  lemma CreateFailureChangesNothing(s: StoreState, req: CarsRequest)
    requires Inv(s)
    ensures !CreateSpec(s, req).0.Ok? ==>
      CreateSpec(s, req).1 == s && CreateSpec(s, req).0 in {DuplicateVin, ColumnRejected}
  {
  }

  /** Every successful `create` adds exactly one event, and a failed one none. */
  lemma CreateEventCount(s: StoreState, req: CarsRequest)
    requires Inv(s)
    ensures |CreateSpec(s, req).1.events| == |s.events| + (if CreateSpec(s, req).0.Ok? then 1 else 0)
  {
  }

  /**
   * Because the VIN is normalised before the unique check, creating a car
   * whose VIN differs from a stored one only by case and padding never
   * succeeds and changes nothing: the database refuses it, as a duplicate
   * whenever the other columns fit.
   */
  lemma CaseVariantVinIsDuplicate(s: StoreState, id: int, req: CarsRequest, x: string, pre: string, post: string)
    requires Inv(s) && id in s.rows
    requires AllTrimmable(pre) && AllTrimmable(post)
    requires s.rows[id].vin == Some(ToUpper(x)) && req.vin == Some(pre + x + post)
    ensures CreateSpec(s, req).1 == s
    ensures CreateSpec(s, req).0.DuplicateVin? || CreateSpec(s, req).0.ColumnRejected?
    ensures ColumnsAdmit(CreateCandidate(req)) ==> CreateSpec(s, req).0 == DuplicateVin
  {
    StoredVinIsCanonical(s, id);
    CanonicalOfVariant(s.rows[id].vin.value, x, pre, post);
    assert CreateCandidate(req).vin == s.rows[id].vin;
    assert VinTakenByOther(s.rows, CreateCandidate(req).vin, None);
  }

  /**
   * The duplicate-VIN case of the service tests: a second car whose VIN is a
   * stored VIN lower-cased is refused with a data-integrity error and leaves
   * the store as it was.
   */
  lemma LowerCasedVinIsRefused(s: StoreState, id: int, req: CarsRequest)
    requires Inv(s) && id in s.rows
    requires req.vin == Some(ToLower(s.rows[id].vin.value))
    ensures CreateSpec(s, req).1 == s
    ensures CreateSpec(s, req).0.DuplicateVin? || CreateSpec(s, req).0.ColumnRejected?
    ensures ColumnsAdmit(CreateCandidate(req)) ==> CreateSpec(s, req).0 == DuplicateVin
  {
    var v := s.rows[id].vin.value;
    var x := ToLower(v);
    StoredVinIsCanonical(s, id);
    CanonicalIsFixed(v);
    assert [] + x + [] == x;
    CaseVariantVinIsDuplicate(s, id, req, x, [], []);
  }

  /** A car just created is found by its id and by its VIN as sent. */
  lemma CreatedCarIsFound(s: StoreState, req: CarsRequest)
    requires Inv(s)
    requires CreateSpec(s, req).0.Ok?
    ensures GetById(CreateSpec(s, req).1, s.nextId) == CreateSpec(s, req).0
    ensures req.vin.Some? && GetByVin(CreateSpec(s, req).1, req.vin) == CreateSpec(s, req).0
  {
    CreatePreservesInv(s, req);
    var s' := CreateSpec(s, req).1;
    CreateSuccess(s, req);
    GetByVinFindsEquivalent(s', s.nextId, req.vin.value);
  }

  // ----------------------------------------------------- replace and patch

  /**
   * `replace` and `patch` look the row up first and then compare versions with
   * `Objects.equals`: any request version other than the stored one, null
   * included, is a conflict, raised before anything is validated or saved.
   */
  lemma StaleReplaceConflicts(s: StoreState, id: int, req: CarsRequest, defaultGroups: set<Group>)
    requires Inv(s)
    ensures ReplaceSpec(s, id, req, defaultGroups).0 == NotFound <==> id !in s.rows
    ensures ReplaceSpec(s, id, req, defaultGroups).0 == VersionConflict <==>
      id in s.rows && req.version != s.rows[id].version
    ensures id in s.rows && req.version.None? ==> ReplaceSpec(s, id, req, defaultGroups) == (VersionConflict, s)
  {
  }

  lemma StalePatchConflicts(s: StoreState, id: int, req: CarsRequest, defaultGroups: set<Group>)
    requires Inv(s)
    ensures PatchSpec(s, id, req, defaultGroups).0 == NotFound <==> id !in s.rows
    ensures PatchSpec(s, id, req, defaultGroups).0 == VersionConflict <==>
      id in s.rows && req.version != s.rows[id].version
    ensures id in s.rows && req.version.None? ==> PatchSpec(s, id, req, defaultGroups) == (VersionConflict, s)
  {
  }

  /** A failed `replace` or `patch` changes nothing. */
  lemma FailedUpdateChangesNothing(s: StoreState, id: int, req: CarsRequest, defaultGroups: set<Group>)
    requires Inv(s)
    ensures !ReplaceSpec(s, id, req, defaultGroups).0.Ok? ==> ReplaceSpec(s, id, req, defaultGroups).1 == s
    ensures !PatchSpec(s, id, req, defaultGroups).0.Ok? ==> PatchSpec(s, id, req, defaultGroups).1 == s
  {
  }

  /** The stored row after a successful save of a loaded entity. */
  lemma SavedLoadedRow(s: StoreState, id: int, e: Car)
    requires Inv(s) && id in s.rows
    requires e.id == Some(id) && e.version.Some?
    requires SaveOutcome(s, e).0.Ok?
    ensures e.version == s.rows[id].version
    ensures var s' := SaveOutcome(s, e).1;
      && id in s'.rows
      && s'.rows == s.rows[id := s'.rows[id]]
      && s'.nextId == s.nextId && s'.events == s.events && s'.clock == s.clock + 1
      && s'.rows[id] == Normalized(e).(version := Some(s.rows[id].version.value + 1),
                                       createdAt := s.rows[id].createdAt, updatedAt := Some(s'.clock))
      && SaveOutcome(s, e).0 == Ok(CarsMapper.ToDto(s'.rows[id]))
  {
  }

  /** What `normalize()` leaves of a stored row after `replace`'s setters: the request's fields, make and model trimmed. */
  lemma NormalizedReplace(c: Car, r: CarsRequest)
    requires IsNormal(c)
    ensures var n := Normalized(ReplacedEntity(c, r));
      && n.make == TrimOpt(r.make) && n.model == TrimOpt(r.model)
      && n.manufactureYear == r.manufactureYear && n.odometerKm == r.odometerKm
      && n.id == c.id && n.vin == c.vin && n.version == r.version && n.createdAt == c.createdAt
  {
  }

  /**
   * What `normalize()` leaves of a stored row after the mapper's patch: each
   * field the request sets (make and model trimmed), every other field as stored.
   */
  lemma NormalizedPatch(c: Car, r: CarsRequest)
    requires IsNormal(c)
    ensures var n := Normalized(CarsMapper.Patched(c, r));
      && n.make == (if r.make.Some? then TrimOpt(r.make) else c.make)
      && n.model == (if r.model.Some? then TrimOpt(r.model) else c.model)
      && n.manufactureYear == (if r.manufactureYear.Some? then r.manufactureYear else c.manufactureYear)
      && n.odometerKm == (if r.odometerKm.Some? then r.odometerKm else c.odometerKm)
      && n.id == c.id && n.vin == c.vin && n.version == c.version && n.createdAt == c.createdAt
  {
  }

  /** A `replace` succeeds only past the lookup, the version check and OnUpdate validation, by saving the overwritten row. */
  lemma ReplaceSpecOk(s: StoreState, id: int, req: CarsRequest, defaultGroups: set<Group>)
    requires Inv(s)
    requires ReplaceSpec(s, id, req, defaultGroups).0.Ok?
    ensures id in s.rows && req.version == s.rows[id].version
    ensures EntityAdmits(ReplacedEntity(s.rows[id], req), OnUpdate, defaultGroups)
    ensures ReplaceSpec(s, id, req, defaultGroups) == SaveOutcome(s, ReplacedEntity(s.rows[id], req))
  {
  }

  /**
   * A successful `replace` stores make, model, manufactureYear and odometerKm
   * from the request (trimmed where `normalize()` trims), keeps id, vin and
   * createdAt, bumps the version by one, passed OnUpdate validation, and
   * touches no other row.
   */
  lemma ReplaceSuccess(s: StoreState, id: int, req: CarsRequest, defaultGroups: set<Group>)
    requires Inv(s)
    requires ReplaceSpec(s, id, req, defaultGroups).0.Ok?
    ensures id in s.rows
    ensures var (r, s') := ReplaceSpec(s, id, req, defaultGroups);
      var old_ := s.rows[id];
      var row := s'.rows[id];
      && id in s'.rows
      && s'.rows == s.rows[id := row]
      && s'.nextId == s.nextId && s'.events == s.events && s'.clock == s.clock + 1
      && row.make == TrimOpt(req.make) && row.model == TrimOpt(req.model)
      && row.manufactureYear == req.manufactureYear && row.odometerKm == req.odometerKm
      && row.id == Some(id) && row.vin == old_.vin && row.createdAt == old_.createdAt
      && row.version == Some(old_.version.value + 1)
      && row.updatedAt == Some(s'.clock)
      && EntityAdmits(ReplacedEntity(old_, req), OnUpdate, defaultGroups)
      && r == Ok(CarsMapper.ToDto(row))
  {
    ReplaceSpecOk(s, id, req, defaultGroups);
    var old_ := s.rows[id];
    SavedLoadedRow(s, id, ReplacedEntity(old_, req));
    NormalizedReplace(old_, req);
  }

  /** A `patch` succeeds only past the lookup, the version check and OnPatch validation, by saving the patched row. */
  lemma PatchSpecOk(s: StoreState, id: int, req: CarsRequest, defaultGroups: set<Group>)
    requires Inv(s)
    requires PatchSpec(s, id, req, defaultGroups).0.Ok?
    ensures id in s.rows && req.version == s.rows[id].version
    ensures EntityAdmits(CarsMapper.Patched(s.rows[id], req), OnPatch, defaultGroups)
    ensures PatchSpec(s, id, req, defaultGroups) == SaveOutcome(s, CarsMapper.Patched(s.rows[id], req))
  {
  }

  /**
   * A successful `patch` takes each field the request sets (make and model
   * trimmed) and keeps every field it leaves null; it never changes id, vin or
   * createdAt, bumps the version by one, passed OnPatch validation, and
   * touches no other row.
   */
  lemma PatchSuccess(s: StoreState, id: int, req: CarsRequest, defaultGroups: set<Group>)
    requires Inv(s)
    requires PatchSpec(s, id, req, defaultGroups).0.Ok?
    ensures id in s.rows
    ensures var (r, s') := PatchSpec(s, id, req, defaultGroups);
      var old_ := s.rows[id];
      var row := s'.rows[id];
      && id in s'.rows
      && s'.rows == s.rows[id := row]
      && s'.nextId == s.nextId && s'.events == s.events && s'.clock == s.clock + 1
      && row.make == (if req.make.Some? then TrimOpt(req.make) else old_.make)
      && row.model == (if req.model.Some? then TrimOpt(req.model) else old_.model)
      && row.manufactureYear == (if req.manufactureYear.Some? then req.manufactureYear else old_.manufactureYear)
      && row.odometerKm == (if req.odometerKm.Some? then req.odometerKm else old_.odometerKm)
      && row.id == Some(id) && row.vin == old_.vin && row.createdAt == old_.createdAt
      && row.version == Some(old_.version.value + 1)
      && row.updatedAt == Some(s'.clock)
      && EntityAdmits(CarsMapper.Patched(old_, req), OnPatch, defaultGroups)
      && r == Ok(CarsMapper.ToDto(row))
  {
    PatchSpecOk(s, id, req, defaultGroups);
    var old_ := s.rows[id];
    SavedLoadedRow(s, id, CarsMapper.Patched(old_, req));
    NormalizedPatch(old_, req);
  }

  // ------------------------------------------------------------------- list

  /** The ids in `rows` within [1, n). */
  ghost function KeysBelow(rows: map<int, Car>, n: int): set<int> {
    set i | i in rows && 1 <= i < n
  }

  lemma {:induction false} IdsBelowCount(rows: map<int, Car>, n: int)
    decreases n
    ensures |IdsBelow(rows, n)| == |KeysBelow(rows, n)|
  {
    if n > 1 {
      IdsBelowCount(rows, n - 1);
      if n - 1 in rows {
        assert KeysBelow(rows, n) == KeysBelow(rows, n - 1) + {n - 1};
        assert n - 1 !in KeysBelow(rows, n - 1);
      } else {
        assert KeysBelow(rows, n) == KeysBelow(rows, n - 1);
      }
    } else {
      assert KeysBelow(rows, n) == {};
    }
  }

  /** `Rows` lists every stored car once. */
  lemma RowCount(s: StoreState)
    requires Inv(s)
    ensures |Rows(s)| == |s.rows|
  {
    IdsBelowCount(s.rows, s.nextId);
    assert KeysBelow(s.rows, s.nextId) == s.rows.Keys;
  }

  /**
   * With both filters, `list` returns every exact match whatever page is
   * asked for, and reports their count as the total on the first page.
   */
  lemma ListFiltered(s: StoreState, p: Pageable, make: string, model: string)
    ensures var page := List(s, p, Some(make), Some(model));
      var items := FindByMakeAndModel(s, make, model);
      && page.content == MapDtos(items)
      && (forall c :: c in items <==> c in Rows(s) && c.make == Some(make) && c.model == Some(model))
      && (Offset(p) == 0 ==> page.totalElements == |items|)
      && (forall q: Pageable :: List(s, q, Some(make), Some(model)).content == page.content)
  {
  }

  /**
   * On a later page the filtered total is not the count: the `PageImpl`
   * constructor raises it to offset plus the number of matches whenever there
   * are matches and the page reaches past their count; with no match at all
   * the total stays 0.
   */
  lemma ListFilteredTotalOnLaterPage(s: StoreState, p: Pageable, make: string, model: string)
    requires Offset(p) > 0
    ensures var n := |FindByMakeAndModel(s, make, model)|;
      List(s, p, Some(make), Some(model)).totalElements ==
        if n > 0 && Offset(p) + p.pageSize > n then Offset(p) + n else n
  {
  }


  /**
   * Without both filters, `list` pages through every row in id order and
   * reports the number of stored cars as the total.
   */
  lemma ListUnfiltered(s: StoreState, p: Pageable, make: Option<string>, model: Option<string>)
    requires Inv(s)
    requires make.None? || model.None?
    ensures var page := List(s, p, make, model);
      && page.content == MapDtos(Slice(Rows(s), p).content)
      && page.totalElements == |s.rows|
      && |page.content| <= p.pageSize
  {
    RowCount(s);
  }

  // ------------------------------------------------------- the HTTP edge

  /** Every stored VIN is a VIN the pattern accepts. */
  ghost predicate VinsValid(s: StoreState) {
    forall id :: id in s.rows ==> s.rows[id].vin.Some? && Vin.MatchesPattern(s.rows[id].vin.value)
  }

  /** Writing one row whose VIN the pattern accepts keeps every stored VIN valid. */
  lemma OneRowKeepsVinsValid(s: StoreState, s': StoreState, id: int)
    requires VinsValid(s) && id in s'.rows
    requires s'.rows == s.rows[id := s'.rows[id]]
    requires s'.rows[id].vin.Some? && Vin.MatchesPattern(s'.rows[id].vin.value)
    ensures VinsValid(s')
  {
    forall j | j in s'.rows
      ensures s'.rows[j].vin.Some? && Vin.MatchesPattern(s'.rows[j].vin.value)
    {
      if j != id {
        assert s'.rows[j] == s.rows[j];
      }
    }
  }

  /** A successful `create` adds one row, under the next id, holding the canonical request VIN. */
  lemma CreatedRow(s: StoreState, req: CarsRequest)
    requires Inv(s) && CreateSpec(s, req).0.Ok?
    ensures var t := CreateSpec(s, req).1;
      && s.nextId in t.rows
      && t.rows == s.rows[s.nextId := t.rows[s.nextId]]
      && t.rows[s.nextId].vin == CanonicalOpt(req.vin)
  {
    CreateSuccess(s, req);
  }

  /** A POST body that passes OnCreate carries a VIN matching the pattern and goes on to `create`. */
  lemma PostPassesVin(s: StoreState, req: CarsRequest, defaultGroups: set<Group>)
    requires RequestViolations(req, OnCreate, defaultGroups) == []
    ensures req.vin.Some? && Vin.MatchesPattern(req.vin.value)
    ensures PostSpec(s, req, defaultGroups) == CreateSpec(s, req)
  {
  }

  /**
   * Through the HTTP edge only valid VINs reach the table: POST validates the
   * raw VIN, which is then already canonical, so it is stored as sent.
   */
  lemma PostKeepsVinsValid(s: StoreState, req: CarsRequest, defaultGroups: set<Group>)
    requires Inv(s) && VinsValid(s)
    ensures VinsValid(PostSpec(s, req, defaultGroups).1)
  {
    if RequestViolations(req, OnCreate, defaultGroups) != [] {
      assert PostSpec(s, req, defaultGroups).1 == s;
    } else {
      PostPassesVin(s, req, defaultGroups);
      if CreateSpec(s, req).0.Ok? {
        Vin.ValidIsCanonical(req.vin.value);
        CreatedRow(s, req);
        OneRowKeepsVinsValid(s, CreateSpec(s, req).1, s.nextId);
      } else {
        CreateFailureChangesNothing(s, req);
      }
    }
  }

  /** PUT never changes a stored VIN. */
  lemma PutKeepsVinsValid(s: StoreState, id: int, req: CarsRequest, defaultGroups: set<Group>)
    requires Inv(s) && VinsValid(s)
    ensures VinsValid(PutSpec(s, id, req, defaultGroups).1)
  {
    if RequestViolations(req, OnUpdate, defaultGroups) != [] {
      assert PutSpec(s, id, req, defaultGroups).1 == s;
    } else {
      assert PutSpec(s, id, req, defaultGroups) == ReplaceSpec(s, id, req, defaultGroups);
      if ReplaceSpec(s, id, req, defaultGroups).0.Ok? {
        ReplaceSuccess(s, id, req, defaultGroups);
        OneRowKeepsVinsValid(s, ReplaceSpec(s, id, req, defaultGroups).1, id);
      } else {
        FailedUpdateChangesNothing(s, id, req, defaultGroups);
      }
    }
  }

  /** PATCH never changes a stored VIN. */
  lemma PatchAtEdgeKeepsVinsValid(s: StoreState, id: int, req: CarsRequest, defaultGroups: set<Group>)
    requires Inv(s) && VinsValid(s)
    ensures VinsValid(PatchAtEdgeSpec(s, id, req, defaultGroups).1)
  {
    if RequestViolations(req, OnPatch, defaultGroups) != [] {
      assert PatchAtEdgeSpec(s, id, req, defaultGroups).1 == s;
    } else {
      assert PatchAtEdgeSpec(s, id, req, defaultGroups) == PatchSpec(s, id, req, defaultGroups);
      if PatchSpec(s, id, req, defaultGroups).0.Ok? {
        PatchSuccess(s, id, req, defaultGroups);
        OneRowKeepsVinsValid(s, PatchSpec(s, id, req, defaultGroups).1, id);
      } else {
        FailedUpdateChangesNothing(s, id, req, defaultGroups);
      }
    }
  }

  /**
   * POST validates the VIN as sent, before `normalize()` would upper-case it,
   * so a VIN with a lower-case letter or surrounding blank is refused and
   * changes nothing.
   */
  lemma PostRefusesLowerCaseVin(s: StoreState, req: CarsRequest, defaultGroups: set<Group>, i: nat)
    requires req.vin.Some? && i < |req.vin.value|
    requires IsAsciiLower(req.vin.value[i]) || IsTrimmable(req.vin.value[i])
    ensures PostSpec(s, req, defaultGroups).0.InvalidRequest?
    ensures Violation("vin", VinC) in PostSpec(s, req, defaultGroups).0.violations
    ensures PostSpec(s, req, defaultGroups).1 == s
  {
    LowerCaseVinRejectedOnCreate(req, defaultGroups, i);
  }

  /**
   * The path pattern on `GET /by-vin/{vin}` admits only canonical VINs, so
   * the service's own trimming and upper-casing never change what arrives
   * over HTTP.
   */
  lemma EdgeGetByVinSeesCanonical(s: StoreState, vin: string)
    requires !GetByVinAtEdge(s, vin).ConstraintViolation?
    ensures Canonical(vin) == vin
    ensures GetByVinAtEdge(s, vin) == GetByVin(s, Some(vin))
  {
    Vin.ValidIsCanonical(vin);
  }

  // ------------------------------------------------------------------ runs

  /** One call of a mutating service operation. */
  datatype Op =
    | CreateOp(req: CarsRequest)
    | ReplaceOp(id: int, req: CarsRequest)
    | PatchOp(id: int, req: CarsRequest)
    | DeleteOp(id: int)

  /** The state after one operation, and whether it succeeded. */
  function Step(s: StoreState, op: Op, defaultGroups: set<Group>): (res: (bool, StoreState))
    requires Inv(s)
    ensures Inv(res.1)
  {
    match op
    case CreateOp(req) =>
      CreatePreservesInv(s, req);
      var (r, s') := CreateSpec(s, req); (r.Ok?, s')
    case ReplaceOp(id, req) =>
      ReplacePreservesInv(s, id, req, defaultGroups);
      var (r, s') := ReplaceSpec(s, id, req, defaultGroups); (r.Ok?, s')
    case PatchOp(id, req) =>
      PatchPreservesInv(s, id, req, defaultGroups);
      var (r, s') := PatchSpec(s, id, req, defaultGroups); (r.Ok?, s')
    case DeleteOp(id) =>
      DeletePreservesInv(s, id);
      var (r, s') := DeleteSpec(s, id); (r.Ok?, s')
  }

  /** The state after a sequence of operations, each on the state the previous one left. */
  function Run(s: StoreState, ops: seq<Op>, defaultGroups: set<Group>): (t: StoreState)
    requires Inv(s)
    ensures Inv(t)
    decreases |ops|
  {
    if ops == [] then s else Run(Step(s, ops[0], defaultGroups).1, ops[1..], defaultGroups)
  }

  /** How many operations of a run are creates that succeed. */
  function SuccessfulCreates(s: StoreState, ops: seq<Op>, defaultGroups: set<Group>): nat
    requires Inv(s)
    decreases |ops|
  {
    if ops == [] then 0
    else
      var (ok, s') := Step(s, ops[0], defaultGroups);
      (if ok && ops[0].CreateOp? then 1 else 0) + SuccessfulCreates(s', ops[1..], defaultGroups)
  }

  /**
   * What a later state keeps from an earlier one: ids below the earlier
   * counter that are gone stay gone (ids are never reused), a row that
   * survives keeps its VIN and createdAt and does not lose versions, and the
   * events published so far stay published.
   */
  ghost predicate Evolves(s: StoreState, t: StoreState) {
    && s.nextId <= t.nextId
    && s.clock <= t.clock
    && (forall id :: id in t.rows && id < s.nextId ==> id in s.rows)
    && (forall id :: id in s.rows && id in t.rows ==>
          && t.rows[id].vin == s.rows[id].vin
          && t.rows[id].createdAt == s.rows[id].createdAt
          && s.rows[id].version.Some? && t.rows[id].version.Some?
          && s.rows[id].version.value <= t.rows[id].version.value)
    && s.events <= t.events
  }

  lemma EvolvesTransitive(s: StoreState, t: StoreState, u: StoreState)
    requires Inv(s) && Evolves(s, t) && Evolves(t, u)
    ensures Evolves(s, u)
  {
    forall id | id in s.rows && id in u.rows
      ensures u.rows[id].vin == s.rows[id].vin
    {
      assert id in t.rows;
    }
  }

  lemma CreateEvolves(s: StoreState, req: CarsRequest)
    requires Inv(s)
    ensures Evolves(s, CreateSpec(s, req).1)
    ensures |CreateSpec(s, req).1.events| == |s.events| + (if CreateSpec(s, req).0.Ok? then 1 else 0)
  {
    if CreateSpec(s, req).0.Ok? {
      CreateSuccess(s, req);
    }
  }

  /** Rewriting one row with its VIN and createdAt kept and its version raised is an evolution. */
  lemma OneRowUpdateEvolves(s: StoreState, t: StoreState, id: int)
    requires Inv(s) && id in s.rows && id in t.rows
    requires t.rows == s.rows[id := t.rows[id]]
    requires t.nextId == s.nextId && t.events == s.events && s.clock <= t.clock
    requires t.rows[id].vin == s.rows[id].vin && t.rows[id].createdAt == s.rows[id].createdAt
    requires t.rows[id].version == Some(s.rows[id].version.value + 1)
    ensures Evolves(s, t)
  {
    forall j | j in s.rows && j in t.rows
      ensures t.rows[j].vin == s.rows[j].vin && t.rows[j].createdAt == s.rows[j].createdAt
      ensures s.rows[j].version.Some? && t.rows[j].version.Some?
      ensures s.rows[j].version.value <= t.rows[j].version.value
    {
      if j != id {
        assert t.rows[j] == s.rows[j];
      }
    }
  }

  /** A successful update raises the version of its row by exactly one. */
  lemma ReplaceEvolves(s: StoreState, id: int, req: CarsRequest, defaultGroups: set<Group>)
    requires Inv(s)
    ensures Evolves(s, ReplaceSpec(s, id, req, defaultGroups).1)
    ensures ReplaceSpec(s, id, req, defaultGroups).1.events == s.events
    ensures ReplaceSpec(s, id, req, defaultGroups).0.Ok? ==>
      id in s.rows && id in ReplaceSpec(s, id, req, defaultGroups).1.rows &&
      ReplaceSpec(s, id, req, defaultGroups).1.rows[id].version.value == s.rows[id].version.value + 1
  {
    if ReplaceSpec(s, id, req, defaultGroups).0.Ok? {
      ReplaceSuccess(s, id, req, defaultGroups);
      OneRowUpdateEvolves(s, ReplaceSpec(s, id, req, defaultGroups).1, id);
    } else {
      FailedUpdateChangesNothing(s, id, req, defaultGroups);
    }
  }

  lemma PatchEvolves(s: StoreState, id: int, req: CarsRequest, defaultGroups: set<Group>)
    requires Inv(s)
    ensures Evolves(s, PatchSpec(s, id, req, defaultGroups).1)
    ensures PatchSpec(s, id, req, defaultGroups).1.events == s.events
    ensures PatchSpec(s, id, req, defaultGroups).0.Ok? ==>
      id in s.rows && id in PatchSpec(s, id, req, defaultGroups).1.rows &&
      PatchSpec(s, id, req, defaultGroups).1.rows[id].version.value == s.rows[id].version.value + 1
  {
    if PatchSpec(s, id, req, defaultGroups).0.Ok? {
      PatchSuccess(s, id, req, defaultGroups);
      OneRowUpdateEvolves(s, PatchSpec(s, id, req, defaultGroups).1, id);
    } else {
      FailedUpdateChangesNothing(s, id, req, defaultGroups);
    }
  }

  lemma DeleteEvolves(s: StoreState, id: int)
    requires Inv(s)
    ensures Evolves(s, DeleteSpec(s, id).1)
    ensures DeleteSpec(s, id).1.events == s.events
  {
  }

  /**
   * One operation evolves the state, and only a successful create publishes,
   * exactly one event.
   */
  lemma StepEvolves(s: StoreState, op: Op, defaultGroups: set<Group>)
    requires Inv(s)
    ensures Evolves(s, Step(s, op, defaultGroups).1)
    ensures |Step(s, op, defaultGroups).1.events| ==
      |s.events| + (if Step(s, op, defaultGroups).0 && op.CreateOp? then 1 else 0)
  {
    match op
    case CreateOp(req) => CreateEvolves(s, req);
    case ReplaceOp(id, req) => ReplaceEvolves(s, id, req, defaultGroups);
    case PatchOp(id, req) => PatchEvolves(s, id, req, defaultGroups);
    case DeleteOp(id) => DeleteEvolves(s, id);
  }

  /**
   * Over any run: the invariant holds at the end (VINs canonical and unique,
   * ids below the counter), the end state evolves from the start, and one
   * event was published per successful create and no other.
   */
  lemma {:induction false} RunEvolves(s: StoreState, ops: seq<Op>, defaultGroups: set<Group>)
    requires Inv(s)
    ensures Evolves(s, Run(s, ops, defaultGroups))
    ensures |Run(s, ops, defaultGroups).events| == |s.events| + SuccessfulCreates(s, ops, defaultGroups)
    decreases |ops|
  {
    if ops != [] {
      var t := Step(s, ops[0], defaultGroups).1;
      StepEvolves(s, ops[0], defaultGroups);
      RunEvolves(t, ops[1..], defaultGroups);
      EvolvesTransitive(s, t, Run(t, ops[1..], defaultGroups));
    }
  }
}
