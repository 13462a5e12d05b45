/**
 * `CarsServiceImpl` over an in-memory `CarsRepository`. The store's state is
 * the `cars` table, the identity counter, an abstract clock for the
 * timestamps, and the `CarCreated` events published after commit.
 *
 * Each operation is given twice: as a pure transition function on
 * `StoreState` (the specification the properties are proved about), and as a
 * method of `CarStore` that does what the Java code does, step by step, and
 * is proved to agree with it. Every check comes before any change of state,
 * so an operation that fails leaves the state as it was, as the class-level
 * transaction rolls it back.
 */
module CarsService {
  import opened Wrappers
  import opened Text
  import opened Validation
  import opened Cars
  import opened Dto
  import CarsMapper
  import Vin

  /** `CarCreatedEvent(id, vin)`. */
  datatype CarCreated = CarCreated(id: int, vin: string)

  datatype StoreState = StoreState(
    rows: map<int, Car>,
    nextId: int,
    clock: int,
    events: seq<CarCreated>)

  /** What `saveAndFlush` does: the saved row, or the exception the store raises. */
  datatype SaveResult = Saved(row: Car) | UniqueVinViolation | ColumnViolation | StaleState

  /**
   * The result of a service operation: the value, or the failure it throws.
   * DuplicateVin and ColumnRejected are the two causes of a
   * `DataIntegrityViolationException`; StaleVersion is the store's own
   * optimistic-lock failure; InvalidRequest is a request body that failed its
   * group's constraints at the HTTP edge.
   */
  datatype Outcome<T> =
    | Ok(value: T)
    | NotFound
    | VersionConflict
    | ConstraintViolation(violations: seq<Violation>)
    | DuplicateVin
    | ColumnRejected
    | StaleVersion
    | InvalidRequest(violations: seq<Violation>)

  /** Some row other than `self` already holds `vin`: the unique key `uk_cars_vin`. */
  predicate VinTakenByOther(rows: map<int, Car>, vin: Option<string>, self: Option<int>) {
    exists id :: id in rows && Some(id) != self && rows[id].vin == vin
  }

  /** What every stored row satisfies. */
  ghost predicate WellFormedRow(id: int, c: Car, clock: int) {
    && c.id == Some(id)
    && IsNormal(c)
    && ColumnsAdmit(c)
    && c.version.Some? && c.version.value >= 0
    && c.createdAt.Some? && c.updatedAt.Some?
    && c.createdAt.value <= c.updatedAt.value <= clock
  }

  ghost predicate VinsUnique(rows: map<int, Car>) {
    forall i, j :: i in rows && j in rows && i != j ==> rows[i].vin != rows[j].vin
  }

  /**
   * The store invariant: ids are below the identity counter (so never reused),
   * rows are normalised and fit their columns, VINs are unique, versions are
   * set, createdAt <= updatedAt, and each event names an id handed out earlier,
   * in the order the ids were handed out.
   */
  ghost predicate Inv(s: StoreState) {
    && s.nextId >= 1 && s.clock >= 0
    && (forall id :: id in s.rows ==> 1 <= id < s.nextId && WellFormedRow(id, s.rows[id], s.clock))
    && VinsUnique(s.rows)
    && (forall k :: 0 <= k < |s.events| ==> 1 <= s.events[k].id < s.nextId)
    && (forall j, k :: 0 <= j < k < |s.events| ==> s.events[j].id < s.events[k].id)
  }

  /** The empty store the application starts with. */
  function Empty(): (s: StoreState)
    ensures Inv(s)
  {
    StoreState(map[], 1, 0, [])
  }

  /**
   * A call `saveAndFlush` receives from this service: a new entity carries
   * neither id nor version, a loaded one carries both.
   */
  predicate Saveable(e: Car) {
    e.id.Some? <==> e.version.Some?
  }

  /**
   * `saveAndFlush(entity)`. An entity without a version is new and inserted:
   * normalised, given the next id, version 0 and both timestamps. An entity
   * with a version is merged: the stored row must exist and hold the same
   * version, else the optimistic lock fails; it is then normalised, its
   * version bumped by one, createdAt kept and updatedAt refreshed. Either way
   * the row must fit the columns and not repeat another row's VIN.
   */
  function SaveSpec(s: StoreState, e: Car): (res: (SaveResult, StoreState))
    requires Saveable(e)
    ensures res.1.events == s.events
    ensures !res.0.Saved? ==> res.1 == s
    ensures res.0.StaleState? ==> e.version.Some?
    ensures e.version.Some? ==>
      (res.0.StaleState? <==> e.id.value !in s.rows || s.rows[e.id.value].version != e.version)
    ensures res.0.ColumnViolation? <==> !res.0.StaleState? && !ColumnsAdmit(Normalized(e))
    ensures res.0.Saved? <==>
      !res.0.StaleState? && ColumnsAdmit(Normalized(e)) && !VinTakenByOther(s.rows, Normalized(e).vin, e.id)
    ensures e.version.Some? ==> res.1.nextId == s.nextId
    ensures res.0.Saved? ==>
      && res.0.row.id.Some? && res.1.rows == s.rows[res.0.row.id.value := res.0.row]
      && (e.version.Some? ==> res.0.row.id == e.id && e.id.value in s.rows)
      && res.1.clock == s.clock + 1
      && ColumnsAdmit(res.0.row) && res.0.row.vin == Normalized(e).vin
      && !VinTakenByOther(res.1.rows, res.0.row.vin, res.0.row.id)
      && res.0.row.version == Some(if e.version.None? then 0 else e.version.value + 1)
      && res.0.row.updatedAt == Some(res.1.clock)
      && res.0.row == Normalized(e).(id := res.0.row.id, version := res.0.row.version,
                                     createdAt := res.0.row.createdAt, updatedAt := res.0.row.updatedAt)
    ensures res.0.Saved? && e.version.None? ==>
      && res.0.row.id == Some(s.nextId) && res.1.nextId == s.nextId + 1
      && res.0.row.createdAt == Some(res.1.clock)
    ensures res.0.Saved? && e.version.Some? ==>
      && res.0.row.version == Some(s.rows[e.id.value].version.value + 1)
      && res.0.row.createdAt == s.rows[e.id.value].createdAt
  {
    var n := Normalized(e);
    if e.version.None? then
      if !ColumnsAdmit(n) then (ColumnViolation, s)
      else if VinTakenByOther(s.rows, n.vin, None) then (UniqueVinViolation, s)
      else
        var t := s.clock + 1;
        var row := n.(id := Some(s.nextId), version := Some(0), createdAt := Some(t), updatedAt := Some(t));
        (Saved(row), s.(rows := s.rows[s.nextId := row], nextId := s.nextId + 1, clock := t))
    else if e.id.value !in s.rows || s.rows[e.id.value].version != e.version then (StaleState, s)
    else if !ColumnsAdmit(n) then (ColumnViolation, s)
    else if VinTakenByOther(s.rows, n.vin, e.id) then (UniqueVinViolation, s)
    else
      var t := s.clock + 1;
      var row := n.(version := Some(e.version.value + 1), createdAt := s.rows[e.id.value].createdAt, updatedAt := Some(t));
      (Saved(row), s.(rows := s.rows[e.id.value := row], clock := t))
  }

  /** A row written at the next tick joins rows that were well formed at the tick before. */
  lemma PutRowKeepsRowsWellFormed(rows: map<int, Car>, n: int, clock: int, id: int, row: Car, rows': map<int, Car>, n': int)
    requires forall i :: i in rows ==> 1 <= i < n && WellFormedRow(i, rows[i], clock)
    requires 1 <= id < n' && n <= n'
    requires WellFormedRow(id, row, clock + 1)
    requires rows' == rows[id := row]
    ensures forall i :: i in rows' ==> 1 <= i < n' && WellFormedRow(i, rows'[i], clock + 1)
  {
    forall i | i in rows'
      ensures 1 <= i < n' && WellFormedRow(i, rows'[i], clock + 1)
    {
      if i != id {
        assert rows'[i] == rows[i];
      }
    }
  }

  /** A row whose VIN no other row holds keeps the VINs unique. */
  lemma PutRowKeepsVinsUnique(rows: map<int, Car>, id: int, row: Car)
    requires VinsUnique(rows)
    requires !VinTakenByOther(rows, row.vin, Some(id))
    ensures VinsUnique(rows[id := row])
  {
    var rows' := rows[id := row];
    forall i, j | i in rows' && j in rows' && i != j
      ensures rows'[i].vin != rows'[j].vin
    {
      if i == id {
        assert j in rows;
      } else if j == id {
        assert i in rows;
      } else {
        assert i in rows && j in rows;
      }
    }
  }

  /** Writing one well-formed row with a fresh VIN, at the next clock tick, keeps the invariant. */
  lemma PutRowPreservesInv(s: StoreState, id: int, row: Car, s': StoreState)
    requires Inv(s)
    requires id in s.rows || id == s.nextId
    requires s' == StoreState(s.rows[id := row], if id in s.rows then s.nextId else s.nextId + 1, s.clock + 1, s.events)
    requires WellFormedRow(id, row, s.clock + 1)
    requires !VinTakenByOther(s.rows, row.vin, Some(id))
    ensures Inv(s')
  {
    PutRowKeepsRowsWellFormed(s.rows, s.nextId, s.clock, id, row, s'.rows, s'.nextId);
    PutRowKeepsVinsUnique(s.rows, id, row);
    assert forall i :: i in s'.rows ==> 1 <= i < s'.nextId && WellFormedRow(i, s'.rows[i], s'.clock);
    assert VinsUnique(s'.rows);
    assert forall k :: 0 <= k < |s'.events| ==> 1 <= s'.events[k].id < s'.nextId;
  }

  /** A save that succeeds keeps the invariant; one that fails changes nothing. */
  lemma SavePreservesInv(s: StoreState, e: Car)
    requires Inv(s) && Saveable(e)
    ensures Inv(SaveSpec(s, e).1)
    ensures SaveSpec(s, e).1.events == s.events
    ensures !SaveSpec(s, e).0.Saved? ==> SaveSpec(s, e).1 == s
    ensures SaveSpec(s, e).0.Saved? ==>
      var row := SaveSpec(s, e).0.row;
      row.id.Some? && row.vin.Some? && SaveSpec(s, e).1.rows == s.rows[row.id.value := row]
    ensures SaveSpec(s, e).0.Saved? && e.version.None? ==>
      SaveSpec(s, e).0.row.id == Some(s.nextId) && SaveSpec(s, e).1.nextId == s.nextId + 1
  {
    var res := SaveSpec(s, e);
    if res.0.Saved? {
      var row := res.0.row;
      var id := row.id.value;
      NormalizedIdempotent(e);
      assert Normalized(row) == row;
      if e.version.None? {
        assert !VinTakenByOther(s.rows, row.vin, None);
      } else {
        assert !VinTakenByOther(s.rows, row.vin, e.id);
      }
      PutRowPreservesInv(s, id, row, res.1);
    }
  }

  /** The outcome of saving a loaded, mutated entity in `replace` and `patch`. */
  function SaveOutcome(s: StoreState, e: Car): (res: (Outcome<CarsDto>, StoreState))
    requires Saveable(e)
    ensures res.0.Ok? || res.0 in {DuplicateVin, ColumnRejected, StaleVersion}
    ensures !res.0.Ok? ==> res.1 == s
    ensures res.1.events == s.events
    ensures e.version.Some? ==> res.1.nextId == s.nextId
    ensures res.0.Ok? && e.version.Some? ==> res.1.rows.Keys == s.rows.Keys && res.0.value.id == e.id
  {
    var (r, s') := SaveSpec(s, e);
    match r
    case Saved(row) => (Ok(CarsMapper.ToDto(row)), s')
    case UniqueVinViolation => (DuplicateVin, s)
    case ColumnViolation => (ColumnRejected, s)
    case StaleState => (StaleVersion, s)
  }

  /**
   * A loaded entity that keeps its id, its stored version and its stored VIN
   * is saved exactly when it fits the columns: the optimistic lock holds and
   * its VIN is its own, so the one way left to fail is a column rule.
   */
  lemma LoadedSaveSucceeds(s: StoreState, id: int, e: Car)
    requires Inv(s) && id in s.rows
    requires e.id == Some(id) && e.version == s.rows[id].version && e.vin == s.rows[id].vin
    ensures SaveOutcome(s, e).0.Ok? <==> ColumnsAdmit(Normalized(e))
    ensures !SaveOutcome(s, e).0.Ok? ==> SaveOutcome(s, e).0 == ColumnRejected
  {
    var c := s.rows[id];
    assert Normalized(c) == c;
    assert Normalized(e).vin == c.vin;
    forall j | j in s.rows && Some(j) != e.id
      ensures s.rows[j].vin != c.vin
    {
      assert j != id;
    }
    assert !VinTakenByOther(s.rows, Normalized(e).vin, e.id);
  }

  /**
   * `create(req)`: map the request, save it, and publish `CarCreated` with the
   * saved id and VIN. No validation of its own.
   */
  function CreateSpec(s: StoreState, req: CarsRequest): (res: (Outcome<CarsDto>, StoreState))
    ensures res.0.Ok? || res.0.DuplicateVin? || res.0.ColumnRejected?
    ensures !res.0.Ok? ==> res.1 == s
    ensures res.0.Ok? ==> |res.1.events| == |s.events| + 1 && res.1.events[..|s.events|] == s.events
  {
    var (r, s') := SaveSpec(s, CarsMapper.FromRequest(req));
    match r
    case Saved(row) =>
      (Ok(CarsMapper.ToDto(row)),
       s'.(events := s'.events + [CarCreated(row.id.GetOr(0), row.vin.GetOr([]))]))
    case UniqueVinViolation => (DuplicateVin, s)
    case ColumnViolation => (ColumnRejected, s)
    case StaleState => (StaleVersion, s)
  }

  /** The entity `replace` has built from the loaded row by its setters. */
  function ReplacedEntity(c: Car, req: CarsRequest): Car {
    c.(make := req.make, model := req.model, manufactureYear := req.manufactureYear,
       odometerKm := req.odometerKm, version := req.version)
  }

  /** The setter calls of `replace`: the request's four fields and its version, null or not. */
  method Overwrite(e: CarEntity, req: CarsRequest)
    modifies e
    ensures e.Value() == ReplacedEntity(old(e.Value()), req)
  {
    e.make := req.make;
    e.model := req.model;
    e.manufactureYear := req.manufactureYear;
    e.odometerKm := req.odometerKm;
    e.version := req.version;
  }

  /**
   * `replace(id, req)`: load, compare versions (`Objects.equals`, so a null
   * request version never matches a stored one), overwrite make, model,
   * manufactureYear and odometerKm, validate under OnUpdate, save.
   */
  function ReplaceSpec(s: StoreState, id: int, req: CarsRequest, defaultGroups: set<Group>)
    : (res: (Outcome<CarsDto>, StoreState))
    requires Inv(s)
    ensures res.0.Ok? || res.0.NotFound? || res.0.VersionConflict? || res.0.ConstraintViolation?
    ensures res.0.NotFound? <==> id !in s.rows
    ensures res.0.VersionConflict? <==> id in s.rows && req.version != s.rows[id].version
    ensures res.0.Ok? <==>
      && id in s.rows && req.version == s.rows[id].version
      && EntityAdmits(ReplacedEntity(s.rows[id], req), OnUpdate, defaultGroups)
    ensures !res.0.Ok? ==> res.1 == s
    ensures res.1.events == s.events && res.1.nextId == s.nextId
    ensures res.0.Ok? ==> res.1.rows.Keys == s.rows.Keys && res.0.value.id == Some(id)
  {
    if id !in s.rows then (NotFound, s)
    else if req.version != s.rows[id].version then (VersionConflict, s)
    else
      var e := ReplacedEntity(s.rows[id], req);
      var vs := EntityViolations(e, OnUpdate, defaultGroups);
      if vs != [] then (ConstraintViolation(vs), s)
      else
        AdmittedFitsColumns(e, OnUpdate, defaultGroups);
        LoadedSaveSucceeds(s, id, e);
        SaveOutcome(s, e)
  }

  /**
   * `patch(id, req)`: load, compare versions, copy the non-null request fields
   * through the mapper, validate under OnPatch, save.
   */
  function PatchSpec(s: StoreState, id: int, req: CarsRequest, defaultGroups: set<Group>)
    : (res: (Outcome<CarsDto>, StoreState))
    requires Inv(s)
    ensures res.0.Ok? || res.0.NotFound? || res.0.VersionConflict? || res.0.ConstraintViolation? || res.0.ColumnRejected?
    ensures res.0.NotFound? <==> id !in s.rows
    ensures res.0.VersionConflict? <==> id in s.rows && req.version != s.rows[id].version
    ensures res.0.Ok? <==>
      && id in s.rows && req.version == s.rows[id].version
      && EntityAdmits(CarsMapper.Patched(s.rows[id], req), OnPatch, defaultGroups)
      && ColumnsAdmit(Normalized(CarsMapper.Patched(s.rows[id], req)))
    ensures res.0.ColumnRejected? <==>
      && id in s.rows && req.version == s.rows[id].version
      && EntityAdmits(CarsMapper.Patched(s.rows[id], req), OnPatch, defaultGroups)
      && !ColumnsAdmit(Normalized(CarsMapper.Patched(s.rows[id], req)))
    ensures !res.0.Ok? ==> res.1 == s
    ensures res.1.events == s.events && res.1.nextId == s.nextId
    ensures res.0.Ok? ==> res.1.rows.Keys == s.rows.Keys && res.0.value.id == Some(id)
  {
    if id !in s.rows then (NotFound, s)
    else if req.version != s.rows[id].version then (VersionConflict, s)
    else
      var e := CarsMapper.Patched(s.rows[id], req);
      var vs := EntityViolations(e, OnPatch, defaultGroups);
      if vs != [] then (ConstraintViolation(vs), s)
      else
        LoadedSaveSucceeds(s, id, e);
        SaveOutcome(s, e)
  }

  /**
   * `delete(id)`: NotFound unless `existsById`, then `deleteById`. Exactly the
   * row under `id` goes, when there is one; nothing else changes.
   */
  function DeleteSpec(s: StoreState, id: int): (res: (Outcome<()>, StoreState))
    ensures res.0.Ok? || res.0.NotFound?
    ensures res.0.NotFound? <==> id !in s.rows
    ensures res.1.rows.Keys == s.rows.Keys - {id}
    ensures forall j :: j in res.1.rows ==> res.1.rows[j] == s.rows[j]
    ensures res.1.nextId == s.nextId && res.1.clock == s.clock && res.1.events == s.events
  {
    if id !in s.rows then (NotFound, s)
    else (Ok(()), s.(rows := s.rows - {id}))
  }

  /** Publishing the event of the id just handed out keeps the event order of the invariant. */
  lemma PublishPreservesInv(s: StoreState, s': StoreState, vin: string)
    requires Inv(s) && Inv(s')
    requires s'.events == s.events && s'.nextId == s.nextId + 1
    ensures Inv(s'.(events := s'.events + [CarCreated(s.nextId, vin)]))
  {
    var t := s'.(events := s'.events + [CarCreated(s.nextId, vin)]);
    assert forall k :: 0 <= k < |s.events| ==> t.events[k] == s.events[k];
  }

  lemma CreatePreservesInv(s: StoreState, req: CarsRequest)
    requires Inv(s)
    ensures Inv(CreateSpec(s, req).1)
  {
    var e := CarsMapper.FromRequest(req);
    SavePreservesInv(s, e);
    var (r, s') := SaveSpec(s, e);
    if r.Saved? {
      PublishPreservesInv(s, s', r.row.vin.value);
      assert CreateSpec(s, req).1 == s'.(events := s'.events + [CarCreated(s.nextId, r.row.vin.value)]);
    }
  }

  lemma ReplacePreservesInv(s: StoreState, id: int, req: CarsRequest, defaultGroups: set<Group>)
    requires Inv(s)
    ensures Inv(ReplaceSpec(s, id, req, defaultGroups).1)
  {
    if id in s.rows && req.version == s.rows[id].version {
      SavePreservesInv(s, ReplacedEntity(s.rows[id], req));
    }
  }

  lemma PatchPreservesInv(s: StoreState, id: int, req: CarsRequest, defaultGroups: set<Group>)
    requires Inv(s)
    ensures Inv(PatchSpec(s, id, req, defaultGroups).1)
  {
    if id in s.rows && req.version == s.rows[id].version {
      SavePreservesInv(s, CarsMapper.Patched(s.rows[id], req));
    }
  }

  lemma DeletePreservesInv(s: StoreState, id: int)
    requires Inv(s)
    ensures Inv(DeleteSpec(s, id).1)
  {
  }

  // ---------------------------------------------------------------- reads

  /** The stored ids below `n`, ascending: the order rows were inserted in. */
  function IdsBelow(rows: map<int, Car>, n: int): (ids: seq<int>)
    decreases n
    ensures forall i :: i in ids <==> i in rows && 1 <= i < n
    ensures forall j, k :: 0 <= j < k < |ids| ==> ids[j] < ids[k]
  {
    if n <= 1 then []
    else
      var prev := IdsBelow(rows, n - 1);
      if n - 1 in rows then
        assert forall j :: 0 <= j < |prev| ==> prev[j] in prev;
        prev + [n - 1]
      else prev
  }

  /** The table's rows in id order. */
  function Rows(s: StoreState): (cs: seq<Car>)
    ensures |cs| == |IdsBelow(s.rows, s.nextId)|
    ensures forall k :: 0 <= k < |cs| ==> cs[k] == s.rows[IdsBelow(s.rows, s.nextId)[k]]
  {
    var ids := IdsBelow(s.rows, s.nextId);
    seq(|ids|, k requires 0 <= k < |ids| => s.rows[ids[k]])
  }

  /** The rows satisfying `p`, in their order. */
  function Filter(cs: seq<Car>, p: Car -> bool): (r: seq<Car>)
    ensures forall c :: c in r <==> c in cs && p(c)
    ensures |r| <= |cs|
  {
    if cs == [] then [] else (if p(cs[0]) then [cs[0]] else []) + Filter(cs[1..], p)
  }

  /** `findByVin(vin)`: the row whose vin equals the argument; a null argument matches no NOT NULL column. */
  function FindByVin(s: StoreState, vin: Option<string>): (r: Option<Car>)
    ensures r.Some? ==> r.value in Rows(s) && r.value.vin == vin
    ensures r.None? <==> forall c :: c in Rows(s) ==> c.vin != vin
  {
    var matches := Filter(Rows(s), (c: Car) => c.vin == vin);
    if matches == [] then None else Some(matches[0])
  }

  /** `findByMakeAndModel(make, model)`: every row with exactly that make and model. */
  function FindByMakeAndModel(s: StoreState, make: string, model: string): (r: seq<Car>)
    ensures forall c :: c in r <==> c in Rows(s) && c.make == Some(make) && c.model == Some(model)
    ensures |r| <= |Rows(s)|
  {
    Filter(Rows(s), (c: Car) => c.make == Some(make) && c.model == Some(model))
  }

  /** A page request: zero-based page number and page size. */
  datatype Pageable = Pageable(pageNumber: nat, pageSize: nat)

  datatype Page<T> = Page(content: seq<T>, pageable: Pageable, totalElements: int)

  function Offset(p: Pageable): nat {
    p.pageNumber * p.pageSize
  }

  /**
   * `new PageImpl<>(content, pageable, total)`: when the page is non-empty and
   * reaches past `total`, the constructor replaces `total` by offset plus the
   * content's size. A total that already counts the page as the last one, or
   * that a full page does not reach past, is kept.
   */
  function MakePage<T>(content: seq<T>, p: Pageable, total: int): (pg: Page<T>)
    ensures pg.content == content && pg.pageable == p
    ensures content == [] ==> pg.totalElements == total
    ensures Offset(p) + |content| == total ==> pg.totalElements == total
    ensures Offset(p) + p.pageSize <= total ==> pg.totalElements == total
    ensures content != [] && Offset(p) + p.pageSize > total ==> pg.totalElements == Offset(p) + |content|
    ensures pg.totalElements >= total || pg.totalElements >= Offset(p) + |content|
  {
    var adjusted := content != [] && Offset(p) + p.pageSize > total;
    Page(content, p, if adjusted then Offset(p) + |content| else total)
  }

  /**
   * A page of `all`: the elements from the page's offset on, at most a page
   * long and short only when it is the last, with the whole length as its
   * total (the `PageImpl` adjustment never changes the total of a true slice).
   */
  function Slice<T>(all: seq<T>, p: Pageable): (pg: Page<T>)
    ensures pg.pageable == p && pg.totalElements == |all|
    ensures |pg.content| <= p.pageSize
    ensures Offset(p) >= |all| ==> pg.content == []
    ensures Offset(p) < |all| ==>
      Offset(p) + |pg.content| <= |all| && pg.content == all[Offset(p)..Offset(p) + |pg.content|]
    ensures |pg.content| == p.pageSize || Offset(p) + |pg.content| >= |all|
  {
    var lo := if Offset(p) < |all| then Offset(p) else |all|;
    var hi := if lo + p.pageSize < |all| then lo + p.pageSize else |all|;
    MakePage(all[lo..hi], p, |all|)
  }

  /**
   * `findAll(pageable)` as a slice of the rows in id order: at most a page of
   * stored rows, with the number of rows as the total.
   */
  function FindAll(s: StoreState, p: Pageable): (pg: Page<Car>)
    ensures pg.pageable == p && pg.totalElements == |Rows(s)|
    ensures |pg.content| <= p.pageSize
    ensures forall c :: c in pg.content ==> c in Rows(s)
  {
    Slice(Rows(s), p)
  }

  function MapDtos(cs: seq<Car>): (ds: seq<CarsDto>)
    ensures |ds| == |cs|
    ensures forall i :: 0 <= i < |cs| ==> ds[i] == CarsMapper.ToDto(cs[i])
  {
    seq(|cs|, i requires 0 <= i < |cs| => CarsMapper.ToDto(cs[i]))
  }

  /** Mapping rows drawn from `all` yields only DTOs of rows in `all`. */
  lemma MapDtosOfDrawn(cs: seq<Car>, all: seq<Car>)
    requires forall c :: c in cs ==> c in all
    ensures forall d :: d in MapDtos(cs) ==> d in MapDtos(all)
  {
    var ds := MapDtos(cs);
    forall d | d in ds ensures d in MapDtos(all) {
      var i :| 0 <= i < |ds| && ds[i] == d;
      assert cs[i] in cs;
      var k :| 0 <= k < |all| && all[k] == cs[i];
      assert MapDtos(all)[k] == d;
    }
  }

  /**
   * `list(pageable, make, model)`: with both filters, every exact match in one
   * page built from the list's own size; otherwise the repository's page,
   * mapped (`Page.map` rebuilds a `PageImpl` with the same total).
   */
  function List(s: StoreState, p: Pageable, make: Option<string>, model: Option<string>): (pg: Page<CarsDto>)
    ensures pg.pageable == p
    ensures |pg.content| <= pg.totalElements
    ensures forall d :: d in pg.content ==> d in MapDtos(Rows(s))
  {
    if make.Some? && model.Some? then
      var found := FindByMakeAndModel(s, make.value, model.value);
      var items := MapDtos(found);
      MapDtosOfDrawn(found, Rows(s));
      MakePage(items, p, |items|)
    else
      var page := FindAll(s, p);
      var items := MapDtos(page.content);
      MapDtosOfDrawn(page.content, Rows(s));
      MakePage(items, page.pageable, page.totalElements)
  }

  /** `getById(id)`: the stored row's DTO, or NotFound exactly when no row has that id. */
  function GetById(s: StoreState, id: int): (r: Outcome<CarsDto>)
    ensures r.Ok? || r.NotFound?
    ensures r.Ok? <==> id in s.rows
    ensures r.Ok? ==> r.value == CarsMapper.ToDto(s.rows[id])
  {
    if id in s.rows then Ok(CarsMapper.ToDto(s.rows[id])) else NotFound
  }

  /** `getByVin(vin)`: trim and upper-case the argument (null stays null), then look it up. */
  function GetByVin(s: StoreState, vin: Option<string>): (r: Outcome<CarsDto>)
    ensures r.Ok? || r.NotFound?
    ensures r.Ok? ==> r.value.vin == CanonicalOpt(vin)
  {
    match FindByVin(s, CanonicalOpt(vin))
    case Some(c) => Ok(CarsMapper.ToDto(c))
    case None => NotFound
  }

  // ------------------------------------------------------- the HTTP edge

  /** The name under which the path-variable constraint of `getByVin` reports. */
  const PathVinProperty := "getByVin.vin"

  /** `GET /api/cars/by-vin/{vin}`: the path variable must match the VIN pattern before the service runs. */
  function GetByVinAtEdge(s: StoreState, vin: string): (r: Outcome<CarsDto>)
    ensures r.ConstraintViolation? <==> !Vin.MatchesPattern(vin)
  {
    if !Vin.MatchesPattern(vin) then ConstraintViolation([Violation(PathVinProperty, PathVinPattern)])
    else GetByVin(s, Some(vin))
  }

  /** `POST /api/cars`: the body is validated under OnCreate, then `create` runs. */
  function PostSpec(s: StoreState, req: CarsRequest, defaultGroups: set<Group>)
    : (res: (Outcome<CarsDto>, StoreState))
    ensures res.0.InvalidRequest? <==> !RequestAdmits(req, OnCreate, defaultGroups)
    ensures res.0.InvalidRequest? ==> res.1 == s && res.0.violations != []
    ensures !res.0.InvalidRequest? ==> res == CreateSpec(s, req)
  {
    var vs := RequestViolations(req, OnCreate, defaultGroups);
    if vs != [] then (InvalidRequest(vs), s) else CreateSpec(s, req)
  }

  /** `PUT /api/cars/{id}`: the body is validated under OnUpdate, then `replace` runs. */
  function PutSpec(s: StoreState, id: int, req: CarsRequest, defaultGroups: set<Group>)
    : (res: (Outcome<CarsDto>, StoreState))
    requires Inv(s)
    ensures res.0.InvalidRequest? <==> !RequestAdmits(req, OnUpdate, defaultGroups)
    ensures res.0.InvalidRequest? ==> res.1 == s && res.0.violations != []
    ensures !res.0.InvalidRequest? ==> res == ReplaceSpec(s, id, req, defaultGroups)
  {
    var vs := RequestViolations(req, OnUpdate, defaultGroups);
    if vs != [] then (InvalidRequest(vs), s) else ReplaceSpec(s, id, req, defaultGroups)
  }

  /** `PATCH /api/cars/{id}`: the body is validated under OnPatch, then `patch` runs. */
  function PatchAtEdgeSpec(s: StoreState, id: int, req: CarsRequest, defaultGroups: set<Group>)
    : (res: (Outcome<CarsDto>, StoreState))
    requires Inv(s)
    ensures res.0.InvalidRequest? <==> !RequestAdmits(req, OnPatch, defaultGroups)
    ensures res.0.InvalidRequest? ==> res.1 == s && res.0.violations != []
    ensures !res.0.InvalidRequest? ==> res == PatchSpec(s, id, req, defaultGroups)
  {
    var vs := RequestViolations(req, OnPatch, defaultGroups);
    if vs != [] then (InvalidRequest(vs), s) else PatchSpec(s, id, req, defaultGroups)
  }

  /** The Java service over its repository and event publisher. */
  class CarStore {
    var rows: map<int, Car>
    var nextId: int
    var clock: int
    var events: seq<CarCreated>
    /** The validation groups that extend Default, under which the ungrouped `@PositiveOrZero` applies. */
    const defaultGroups: set<Group>

    function State(): StoreState
      reads this
    {
      StoreState(rows, nextId, clock, events)
    }

    ghost predicate Valid()
      reads this
    {
      Inv(State())
    }

    constructor (defaultGroups: set<Group>)
      ensures Valid() && State() == Empty() && this.defaultGroups == defaultGroups
    {
      rows, nextId, clock, events := map[], 1, 0, [];
      this.defaultGroups := defaultGroups;
    }

    /** `repository.saveAndFlush(entity)`: runs `normalize()` on the entity, then writes it. */
    method SaveAndFlush(e: CarEntity) returns (r: SaveResult)
      requires Saveable(e.Value())
      modifies this, e
      ensures (r, State()) == SaveSpec(old(State()), old(e.Value()))
      ensures e.Value() == if r.Saved? then r.row else Normalized(old(e.Value()))
    {
      ghost var s0 := State();
      var isNew := e.version.None?;
      if !isNew && (e.id.value !in rows || rows[e.id.value].version != e.version) {
        e.Normalize();
        return StaleState;
      }
      e.Normalize();
      var n := e.Value();
      if !ColumnsAdmit(n) {
        return ColumnViolation;
      }
      if VinTakenByOther(rows, n.vin, if isNew then None else n.id) {
        return UniqueVinViolation;
      }
      clock := clock + 1;
      var row: Car;
      if isNew {
        row := n.(id := Some(nextId), version := Some(0), createdAt := Some(clock), updatedAt := Some(clock));
        e.SetGenerated(row.id, row.version, row.createdAt, row.updatedAt);
        rows := rows[nextId := row];
        nextId := nextId + 1;
      } else {
        var id := n.id.value;
        row := n.(version := Some(n.version.value + 1), createdAt := rows[id].createdAt, updatedAt := Some(clock));
        e.SetGenerated(row.id, row.version, row.createdAt, row.updatedAt);
        rows := rows[id := row];
      }
      r := Saved(row);
    }

    /** `create(req)`. */
    method Create(req: CarsRequest) returns (r: Outcome<CarsDto>)
      requires Valid()
      modifies this
      ensures Valid()
      ensures (r, State()) == CreateSpec(old(State()), req)
    {
      CreatePreservesInv(State(), req);
      var e := new CarEntity.FromValue(CarsMapper.FromRequest(req));
      var saved := SaveAndFlush(e);
      match saved
      case Saved(row) =>
        events := events + [CarCreated(row.id.GetOr(0), row.vin.GetOr([]))];
        r := Ok(CarsMapper.ToDto(row));
      case UniqueVinViolation =>
        r := DuplicateVin;
      case ColumnViolation =>
        r := ColumnRejected;
      case StaleState =>
        r := StaleVersion;
    }

    /** Maps the store's answer to the operation's outcome, for `replace` and `patch`. */
    method SaveLoaded(e: CarEntity) returns (r: Outcome<CarsDto>)
      requires Saveable(e.Value())
      modifies this, e
      ensures (r, State()) == SaveOutcome(old(State()), old(e.Value()))
    {
      var saved := SaveAndFlush(e);
      match saved
      case Saved(row) =>
        r := Ok(CarsMapper.ToDto(row));
      case UniqueVinViolation =>
        r := DuplicateVin;
      case ColumnViolation =>
        r := ColumnRejected;
      case StaleState =>
        r := StaleVersion;
    }

    /** `replace(id, req)`. */
    method Replace(id: int, req: CarsRequest) returns (r: Outcome<CarsDto>)
      requires Valid()
      modifies this
      ensures Valid()
      ensures (r, State()) == ReplaceSpec(old(State()), id, req, defaultGroups)
    {
      ReplacePreservesInv(State(), id, req, defaultGroups);
      if id !in rows {
        return NotFound;
      }
      var e := new CarEntity.FromValue(rows[id]);
      if req.version != e.version {
        return VersionConflict;
      }
      Overwrite(e, req);
      var vs := EntityViolations(e.Value(), OnUpdate, defaultGroups);
      if vs != [] {
        return ConstraintViolation(vs);
      }
      r := SaveLoaded(e);
    }

    /** `patch(id, req)`. */
    method Patch(id: int, req: CarsRequest) returns (r: Outcome<CarsDto>)
      requires Valid()
      modifies this
      ensures Valid()
      ensures (r, State()) == PatchSpec(old(State()), id, req, defaultGroups)
    {
      PatchPreservesInv(State(), id, req, defaultGroups);
      if id !in rows {
        return NotFound;
      }
      var e := new CarEntity.FromValue(rows[id]);
      if req.version != e.version {
        return VersionConflict;
      }
      CarsMapper.UpdateEntityFromRequest(req, e);
      var vs := EntityViolations(e.Value(), OnPatch, defaultGroups);
      if vs != [] {
        return ConstraintViolation(vs);
      }
      r := SaveLoaded(e);
    }

    /** `delete(id)`. */
    method Delete(id: int) returns (r: Outcome<()>)
      requires Valid()
      modifies this
      ensures Valid()
      ensures (r, State()) == DeleteSpec(old(State()), id)
    {
      DeletePreservesInv(State(), id);
      if id !in rows {
        return NotFound;
      }
      rows := rows - {id};
      r := Ok(());
    }

    /** `POST /api/cars`. */
    method Post(req: CarsRequest) returns (r: Outcome<CarsDto>)
      requires Valid()
      modifies this
      ensures Valid()
      ensures (r, State()) == PostSpec(old(State()), req, defaultGroups)
    {
      var vs := RequestViolations(req, OnCreate, defaultGroups);
      if vs != [] {
        return InvalidRequest(vs);
      }
      r := Create(req);
    }

    /** `PUT /api/cars/{id}`. */
    method Put(id: int, req: CarsRequest) returns (r: Outcome<CarsDto>)
      requires Valid()
      modifies this
      ensures Valid()
      ensures (r, State()) == PutSpec(old(State()), id, req, defaultGroups)
    {
      var vs := RequestViolations(req, OnUpdate, defaultGroups);
      if vs != [] {
        return InvalidRequest(vs);
      }
      r := Replace(id, req);
    }

    /** `PATCH /api/cars/{id}`. */
    method PatchAtEdge(id: int, req: CarsRequest) returns (r: Outcome<CarsDto>)
      requires Valid()
      modifies this
      ensures Valid()
      ensures (r, State()) == PatchAtEdgeSpec(old(State()), id, req, defaultGroups)
    {
      var vs := RequestViolations(req, OnPatch, defaultGroups);
      if vs != [] {
        return InvalidRequest(vs);
      }
      r := Patch(id, req);
    }
  }
}
