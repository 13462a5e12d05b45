# Car mutation protocol — a Dafny model

This project models the core of a Spring Boot car-inventory backend:
- the service that lists, reads, creates, replaces, patches and deletes cars (`CarsServiceImpl`);
- the JPA entity with its per-group constraints, unique VIN, optimistic-lock version and `normalize()` hook (`Cars`);
- the request DTO's per-group constraints (`CarsRequest`);
- the MapStruct mapper (`CarsMapper`);
- the composed `@Vin` constraint (`Vin`);
- the exception handler that turns failures into RFC 9457 problem details (`TekmetricExceptionHandler`).

Modules, in dependency order:

- `Wrappers`: `Option`, which stands for a Java reference that may be `null`.
- `Text`: Java's `String.trim()`, ASCII `toUpperCase()` and `@NotBlank`, with their laws.
- `Vin`: the `@Vin` predicate (non-blank, 17 chars, pattern `^[A-HJ-NPR-Z0-9]{17}$`).
- `Validation`: constraint kinds, violations and one check per Jakarta constraint.
- `Cars`: the `Car` row and the entity class `CarEntity`. `CarEntity` has the in-place `Normalize()`, plus the entity's constraints per validation group.
- `Dto`: `CarsRequest`, `CarsDto` and the request's constraints per group.
- `CarsMapper`: `map(entity)`, `map(request)` and the in-place, null-ignoring `updateEntityFromRequest`.
- `CarsService`: the store. `StoreState` holds:
  - the rows, keyed by id;
  - the next IDENTITY id;
  - a save counter that stands in for the clock;
  - the published `CarCreated` events.

  It also holds:
  - pure transition functions for `saveAndFlush`, `create`, `replace`, `patch` and `delete`;
  - the read operations;
  - the class `CarStore`, whose methods mutate those fields and are each proved to agree with the transition function.

  The store invariant `Inv` says:
  - ids lie in [1, next id);
  - rows are normalised and fit their columns;
  - every row has a version;
  - `createdAt <= updatedAt <= clock`;
  - VINs are unique;
  - event ids ascend.
- `CarsProperties`: the lemmas relating the operations. They include:
  - canonical VIN lookup;
  - create, replace, patch and delete outcomes;
  - list paging;
  - VIN validity kept at the HTTP edge;
  - a step/run semantics over any operation sequence, proving that every run keeps `Inv`, ids, VINs and `createdAt` are never rewritten, versions never decrease, and exactly one event is published per successful create.
- `ExceptionHandler`: the error kinds, the status / problem-type / detail table, the first-wins `fields` and `violations` maps, and the exception each failed service outcome is thrown as.

Behaviour a reader might not expect, which the model follows as written:

- `create` runs no validation of its own. Only the request-level `@Validated(OnCreate)` on the controller and the database guard it.
- The service's `patch` copies a non-null make or model through the mapper. Only the request's `@Null(groups = OnPatch)` keeps them out; OnPatch checks no length, so a patched make or model longer than its column is refused by the database (`CarsService.PatchSpec`).
- A missing request version on `replace` or `patch` is a version conflict (`Objects.equals(null, v)` is false), not a validation error.
- The request's `@Vin` sees the raw value before `normalize()`, so a lower-case or padded VIN is refused on create (`CarsProperties.PostRefusesLowerCaseVin`).
- `getByVin`'s path variable must already match the upper-case pattern, so over HTTP the service's trim and upper-case never changes a value (`CarsProperties.EdgeGetByVinSeesCanonical`).
- With both `make` and `model` given, `list` returns every match whatever page is asked for. The total is the number of matches unless there are matches and the page is a later one whose window runs past their number: then the `PageImpl` constructor raises the total to offset + number of matches (`CarsProperties.ListFilteredTotalOnLaterPage`). Forty matches asked for as page 1 of size 20 keep the total 40.


## Model

| member | source | states |
|---|---|---|
| Text.TrimStartSpec | backend/src/main/java/com/interview/domain/entity/Cars.java:80-82 | removing leading chars at or below U+0020 keeps a suffix, drops only such chars, and leaves a kept char first |
| Text.TrimEndSpec | backend/src/main/java/com/interview/domain/entity/Cars.java:80-82 | removing trailing chars at or below U+0020 keeps a prefix, drops only such chars, and leaves a kept char last |
| Text.TrimSpec | backend/src/main/java/com/interview/domain/entity/Cars.java:80-82 | `trim()` never lengthens, leaves nothing to trim, and is empty exactly when every char is at or below U+0020 |
| Text.Trim | backend/src/main/java/com/interview/domain/entity/Cars.java:81-82 | `String.trim()`, leading then trailing chars at or below U+0020 removed; its properties are the lemmas `Text.TrimSpec`, `Text.TrimOfPadded` and `Text.TrimIdempotent` |
| Text.TrimOfTrimmed | backend/src/main/java/com/interview/domain/entity/Cars.java:80-82 | `trim()` of a string with no padding is the string itself |
| Text.TrimOfPadded | backend/src/main/java/com/interview/domain/entity/Cars.java:80-82 | `trim()` removes exactly the surrounding padding of `pre + x + post` |
| Text.TrimIdempotent | backend/src/main/java/com/interview/domain/entity/Cars.java:80-82 | trimming twice is trimming once |
| Text.UpperChar | backend/src/main/java/com/interview/domain/entity/Cars.java:80 | an ASCII lower-case letter becomes its upper-case letter (code point minus 32); every other char is left alone; the result is never a lower-case letter and keeps trimmability |
| Text.ToUpperSpec | backend/src/main/java/com/interview/domain/entity/Cars.java:80 | `toUpperCase()` keeps the length and upper-cases char by char |
| Text.ToUpper | backend/src/main/java/com/interview/domain/entity/Cars.java:80 | ASCII `toUpperCase()`, char by char; its properties are the lemmas `Text.ToUpperSpec` and `Text.ToUpperOfUpper` and the contract of `Text.UpperChar` |
| Text.ToUpperOfUpper | backend/src/main/java/com/interview/domain/entity/Cars.java:80 | a string without ASCII lower-case letters is its own upper-case form |
| Text.TrimCommutesWithUpper | backend/src/main/java/com/interview/domain/entity/Cars.java:80 | trimming and upper-casing commute |
| Text.LowerChar | backend/src/test/java/com/interview/service/impl/CarsServiceImplITTest.java:69 | ASCII `toLowerCase()` of one char: an upper-case letter becomes its lower-case letter (code point plus 32), every other char is kept, and upper-casing the result gives what upper-casing the char gives |
| Text.ToLower | backend/src/test/java/com/interview/service/impl/CarsServiceImplITTest.java:64-72 | the tests' `toLowerCase()` of a VIN, ASCII only: same length, each char lower-cased by `LowerChar`, and the same upper-case form as the original |
| Text.CanonicalIdempotent | backend/src/main/java/com/interview/service/impl/CarsServiceImpl.java:64 | `trim().toUpperCase()` applied twice equals applying it once |
| Text.CanonicalIsFixed | backend/src/main/java/com/interview/service/impl/CarsServiceImpl.java:64 | a canonical string has nothing to trim and nothing to upper-case |
| Text.CanonicalOfVariant | backend/src/main/java/com/interview/service/impl/CarsServiceImpl.java:64 | any spelling of a canonical string, in any mix of ASCII case and with any surrounding padding, canonicalises back to it |
| Text.Canonical | backend/src/main/java/com/interview/service/impl/CarsServiceImpl.java:64 | `trim().toUpperCase()`, shared by `normalize()` and `getByVin`; its properties are the lemmas `Text.CanonicalIdempotent`, `Text.CanonicalIsFixed` and `Text.CanonicalOfVariant` |
| Vin.ValidIffPattern | backend/src/main/java/com/interview/validation/Vin.java:20-22 | `@Vin` holds iff the value is non-null and matches the pattern: the pattern implies NotBlank and Size(17, 17) |
| Vin.RejectsNullAndForbiddenChars | backend/src/main/java/com/interview/validation/Vin.java:20-22 | null, and any value containing I, O, Q or an ASCII lower-case letter, fails `@Vin` |
| Vin.ValidIsCanonical | backend/src/main/java/com/interview/validation/Vin.java:22 | a value matching the pattern is unchanged by trim and upper-case |
| Validation.CheckNotBlank | backend/src/main/java/com/interview/domain/entity/Cars.java:32 | no violation iff the value is non-null and not blank after trimming |
| Validation.CheckSizeMax | backend/src/main/java/com/interview/domain/entity/Cars.java:33-35 | no violation iff the value is null or at most `max` chars long |
| Validation.CheckNotNull | backend/src/main/java/com/interview/domain/entity/Cars.java:47-48 | no violation iff the value is non-null |
| Validation.CheckNull | backend/src/main/java/com/interview/web/dto/cars/CarsRequest.java:21 | no violation iff the value is null |
| Validation.CheckMin | backend/src/main/java/com/interview/domain/entity/Cars.java:49-51 | no violation iff the value is null or at least the bound |
| Validation.CheckPositiveOrZero | backend/src/main/java/com/interview/domain/entity/Cars.java:60 | no violation iff the value is null or non-negative |
| Validation.CheckVin | backend/src/main/java/com/interview/validation/Vin.java:19-25 | at most one violation, with the fixed VIN message; none iff the value is non-null and matches the pattern |
| Cars.Normalized | backend/src/main/java/com/interview/domain/entity/Cars.java:77-83 | vin is trimmed and upper-cased, make and model trimmed, nulls stay null, every other field unchanged |
| Cars.NormalizedIdempotent | backend/src/main/java/com/interview/domain/entity/Cars.java:77-83 | normalising twice equals normalising once |
| Cars.NormalizedVinOfVariant | backend/src/main/java/com/interview/domain/entity/Cars.java:80 | VINs that differ only by ASCII case (any mix) and surrounding padding normalise to the same stored VIN |
| Cars.TextFieldViolations | backend/src/main/java/com/interview/domain/entity/Cars.java:32-45 | under OnCreate and OnUpdate, no violation iff non-blank and within the column length; under OnPatch none |
| Cars.YearViolations | backend/src/main/java/com/interview/domain/entity/Cars.java:47-53 | under OnCreate and OnUpdate, no violation iff present and at least 1886; under OnPatch none |
| Cars.CommonViolations | backend/src/main/java/com/interview/domain/entity/Cars.java:55-67 | the group-independent part: `@Vin` and non-null version in every group, `@PositiveOrZero` in the default-extending groups |
| Cars.ColumnsAdmit | backend/src/main/java/com/interview/domain/entity/Cars.java:36-58 | the NOT NULL and length rules of the make, model, manufacture_year and vin columns |
| Cars.AdmittedFitsColumns | backend/src/main/java/com/interview/domain/entity/Cars.java:32-58 | an entity that passes OnCreate or OnUpdate validation fits those columns once normalised |
| Cars.EntityViolations | backend/src/main/java/com/interview/domain/entity/Cars.java:32-67 | no violation iff the entity satisfies every constraint of the group; a vin violation is the single `@Vin` one; OnPatch checks only vin, odometer and version |
| Cars.CarEntity.FromValue | backend/src/main/java/com/interview/domain/entity/Cars.java:18 | the all-arguments constructor holds exactly the given field values |
| Cars.CarEntity.Normalize | backend/src/main/java/com/interview/domain/entity/Cars.java:77-83 | `normalize()` rewrites the entity's fields in place to their normalised values |
| Cars.CarEntity.SetGenerated | backend/src/main/java/com/interview/domain/entity/Cars.java:65-75 | the store's write-back of id, version and timestamps changes those four fields and no other |
| Dto.RequestTextViolations | backend/src/main/java/com/interview/web/dto/cars/CarsRequest.java:17-30 | make and model: non-blank and within length on OnCreate and OnUpdate, null on OnPatch |
| Dto.RequestYearViolations | backend/src/main/java/com/interview/web/dto/cars/CarsRequest.java:32-37 | year present and at least 1886 on OnCreate and OnUpdate, unconstrained on OnPatch |
| Dto.RequestVinViolations | backend/src/main/java/com/interview/web/dto/cars/CarsRequest.java:39-43 | vin satisfies `@Vin` on OnCreate and is null on OnUpdate and OnPatch |
| Dto.RequestVersionViolations | backend/src/main/java/com/interview/web/dto/cars/CarsRequest.java:48-52 | version null on OnCreate, non-null on OnUpdate and OnPatch |
| Dto.RequestViolations | backend/src/main/java/com/interview/web/dto/cars/CarsRequest.java:17-52 | no violation iff the request satisfies every constraint of the group; every violation names one of the six fields |
| Dto.LowerCaseVinRejectedOnCreate | backend/src/main/java/com/interview/web/dto/cars/CarsRequest.java:39-40 | on OnCreate a raw VIN with a lower-case letter or padding is refused, since validation precedes normalisation |
| CarsMapper.ToDto | backend/src/main/java/com/interview/mapper/CarsMapper.java:11 | `map(entity)` copies all nine fields unchanged |
| CarsMapper.ToDtoInjective | backend/src/main/java/com/interview/mapper/CarsMapper.java:11 | two entities with the same DTO are equal: nothing is lost |
| CarsMapper.FromRequest | backend/src/main/java/com/interview/mapper/CarsMapper.java:13-17 | `map(req)` copies make, model, year, vin and odometer and leaves id, version and timestamps null |
| CarsMapper.Patched | backend/src/main/java/com/interview/mapper/CarsMapper.java:19-25 | each non-null request field overwrites its target, each null one keeps it; id, vin, version and timestamps never change |
| CarsMapper.PatchedByEmptyRequest | backend/src/main/java/com/interview/mapper/CarsMapper.java:19-25 | an all-null request leaves the entity unchanged |
| CarsMapper.PatchedIdempotent | backend/src/main/java/com/interview/mapper/CarsMapper.java:19-25 | applying the same request twice equals applying it once |
| CarsMapper.UpdateEntityFromRequest | backend/src/main/java/com/interview/mapper/CarsMapper.java:19-25 | the in-place copy leaves the entity equal to `Patched` of its old value |
| CarsService.Empty | backend/src/main/java/com/interview/domain/entity/Cars.java:27-28 | the empty table, whose IDENTITY ids start at 1, satisfies the store invariant |
| CarsService.SavePreservesInv | backend/src/main/java/com/interview/domain/entity/Cars.java:22-24 | `saveAndFlush` keeps the invariant (unique VIN, versions, timestamps); a failed save changes nothing; a saved row replaces only its own id; an insert takes the next id |
| CarsService.SaveOutcome | backend/src/main/java/com/interview/service/impl/CarsServiceImpl.java:95 | a save ends in success, a duplicate VIN, a column rejection or a stale version, and any failure leaves the store unchanged |
| CarsService.LoadedSaveSucceeds | backend/src/main/java/com/interview/service/impl/CarsServiceImpl.java:95 | saving a loaded entity that keeps its id, stored version and stored VIN succeeds exactly when its normalised form fits the columns, and otherwise is a column rejection |
| CarsService.SaveSpec | backend/src/main/java/com/interview/domain/entity/Cars.java:22-75 | `saveAndFlush`: a loaded entity is stale exactly when its row is gone or holds another version (the `@Version` check); otherwise the save is refused for the columns exactly when the normalised row breaks a column rule, and succeeds exactly when it fits and no other row holds its VIN; a failed save changes nothing and no save touches the events; a saved row is the normalised entity with an id, a version, createdAt and updatedAt = the next clock tick, replaces only its own id, takes the next id with version 0 and createdAt = now on insert, and keeps createdAt with the stored version + 1 on merge |
| CarsService.CreateSpec | backend/src/main/java/com/interview/service/impl/CarsServiceImpl.java:72-77 | `create` ends in success, a duplicate VIN or a column rejection; a failure changes nothing; a success appends exactly one event |
| CarsService.ReplaceSpec | backend/src/main/java/com/interview/service/impl/CarsServiceImpl.java:80-96 | ends in success, NotFound, a version conflict or constraint violations, never a VIN or column rejection; NotFound exactly for an absent id; a version conflict exactly when the request version differs from the stored one; success exactly when the id is stored, the versions are equal and the overwritten entity passes OnUpdate validation; a failure changes nothing; no event is published and no id consumed; a success keeps the set of stored ids and answers with that id |
| CarsService.PatchSpec | backend/src/main/java/com/interview/service/impl/CarsServiceImpl.java:99-112 | ends in success, NotFound, a version conflict, constraint violations or a column rejection; NotFound exactly for an absent id; a version conflict exactly when the versions differ; success exactly when the id is stored, the versions are equal, the patched entity passes OnPatch validation and its normalised form fits the columns; a column rejection exactly when it passes validation but not the columns; a failure changes nothing; no event is published and no id consumed; a success keeps the set of stored ids and answers with that id |
| CarsService.PostSpec | backend/src/main/java/com/interview/web/controller/CarsController.java:106-107 | `POST`: the request is rejected exactly when it breaks an OnCreate constraint, with its violations and no change; otherwise `create` runs |
| CarsService.PutSpec | backend/src/main/java/com/interview/web/controller/CarsController.java:126-129 | `PUT`: the request is rejected exactly when it breaks an OnUpdate constraint, with its violations and no change; otherwise `replace` runs |
| CarsService.PatchAtEdgeSpec | backend/src/main/java/com/interview/web/controller/CarsController.java:143-146 | `PATCH`: the request is rejected exactly when it breaks an OnPatch constraint, with its violations and no change; otherwise `patch` runs |
| CarsService.VinTakenByOther | backend/src/main/java/com/interview/domain/entity/Cars.java:22-24 | the unique key `uk_cars_vin`: some row with another id already holds the VIN |
| CarsService.DeleteSpec | backend/src/main/java/com/interview/service/impl/CarsServiceImpl.java:115-120 | NotFound exactly for an absent id; otherwise exactly that row is removed, and every other row, the id counter, the clock and the events are unchanged |
| CarsService.Overwrite | backend/src/main/java/com/interview/service/impl/CarsServiceImpl.java:89-93 | `replace`'s setters store the request's make, model, year, odometer and version, null or not |
| CarsService.CreatePreservesInv | backend/src/main/java/com/interview/service/impl/CarsServiceImpl.java:72-77 | `create` keeps the store invariant |
| CarsService.PublishPreservesInv | backend/src/main/java/com/interview/service/impl/CarsServiceImpl.java:75 | publishing the event of the id just handed out keeps event ids ascending and below the counter |
| CarsService.ReplacePreservesInv | backend/src/main/java/com/interview/service/impl/CarsServiceImpl.java:80-96 | `replace` keeps the store invariant |
| CarsService.PatchPreservesInv | backend/src/main/java/com/interview/service/impl/CarsServiceImpl.java:99-112 | `patch` keeps the store invariant |
| CarsService.DeletePreservesInv | backend/src/main/java/com/interview/service/impl/CarsServiceImpl.java:115-120 | `delete` keeps the store invariant |
| CarsService.IdsBelow | backend/src/main/java/com/interview/service/impl/CarsServiceImpl.java:49 | the stored ids below a bound, each exactly once, in ascending order |
| CarsService.Rows | backend/src/main/java/com/interview/service/impl/CarsServiceImpl.java:49 | the table's rows in id order |
| CarsService.Filter | backend/src/main/java/com/interview/service/impl/CarsServiceImpl.java:41-42 | keeps exactly the rows satisfying the predicate |
| CarsService.FindByMakeAndModel | backend/src/main/java/com/interview/service/impl/CarsServiceImpl.java:41-42 | exactly the stored rows with that make and that model |
| CarsService.FindByVin | backend/src/main/java/com/interview/service/impl/CarsServiceImpl.java:65-66 | a found row is stored and has that VIN; nothing is found iff no stored row has it |
| CarsService.MapDtos | backend/src/main/java/com/interview/service/impl/CarsServiceImpl.java:44 | maps each row through `map(entity)`, keeping order and length |
| CarsService.MakePage | backend/src/main/java/com/interview/service/impl/CarsServiceImpl.java:46 | `new PageImpl<>(content, pageable, total)` keeps content and pageable; an empty page, a total the window does not run past, and a total that counts the page as the last one are kept; a non-empty page running past the total raises it to offset + content size |
| CarsService.Slice | backend/src/main/java/com/interview/service/impl/CarsServiceImpl.java:48-49 | the elements from the page's offset, at most a page long and short only as the last page, with the whole count as total |
| CarsService.FindAll | backend/src/main/java/com/interview/service/impl/CarsServiceImpl.java:48-49 | `findAll(pageable)`: at most a page of stored rows, with the number of rows as total |
| CarsService.List | backend/src/main/java/com/interview/service/impl/CarsServiceImpl.java:39-51 | the page asked for, never holding more cars than its total, each one the DTO of a stored row |
| CarsService.GetById | backend/src/main/java/com/interview/service/impl/CarsServiceImpl.java:55-59 | found exactly for a stored id, with that row's DTO; otherwise NotFound |
| CarsService.GetByVin | backend/src/main/java/com/interview/service/impl/CarsServiceImpl.java:63-69 | the answer is a car whose VIN is the canonical form of the argument, or NotFound |
| CarsService.GetByVinAtEdge | backend/src/main/java/com/interview/web/controller/CarsController.java:85-87 | the path variable is refused with a constraint violation iff it does not match the VIN pattern |
| CarsService.CarStore.constructor | backend/src/main/java/com/interview/service/impl/CarsServiceImpl.java:27-35 | a new service over an empty table satisfies the invariant |
| CarsService.CarStore.SaveAndFlush | backend/src/main/java/com/interview/service/impl/CarsServiceImpl.java:74 | normalises the entity in place, then stores it or fails exactly as `SaveSpec`, writing generated id, version and timestamps back into the entity |
| CarsService.CarStore.Create | backend/src/main/java/com/interview/service/impl/CarsServiceImpl.java:72-77 | keeps the invariant and performs `CreateSpec`: map, save, publish one event on success |
| CarsService.CarStore.SaveLoaded | backend/src/main/java/com/interview/service/impl/CarsServiceImpl.java:95 | saves a loaded entity and reports the store's answer as an outcome |
| CarsService.CarStore.Replace | backend/src/main/java/com/interview/service/impl/CarsServiceImpl.java:80-96 | keeps the invariant and performs `ReplaceSpec`: NotFound, then version check, then OnUpdate validation, then save |
| CarsService.CarStore.Patch | backend/src/main/java/com/interview/service/impl/CarsServiceImpl.java:99-112 | keeps the invariant and performs `PatchSpec`: NotFound, then version check, then null-ignoring copy, OnPatch validation, save |
| CarsService.CarStore.Delete | backend/src/main/java/com/interview/service/impl/CarsServiceImpl.java:115-120 | keeps the invariant and performs `DeleteSpec` |
| CarsService.CarStore.Post | backend/src/main/java/com/interview/web/controller/CarsController.java:106 | the body is validated under OnCreate before `create` runs |
| CarsService.CarStore.Put | backend/src/main/java/com/interview/web/controller/CarsController.java:126-127 | the body is validated under OnUpdate before `replace` runs |
| CarsService.CarStore.PatchAtEdge | backend/src/main/java/com/interview/web/controller/CarsController.java:143-144 | the body is validated under OnPatch before `patch` runs |
| CarsProperties.RowsAreTheTable | backend/src/main/java/com/interview/service/impl/CarsServiceImpl.java:49 | every stored row is listed, and every listed row is the one stored under its id |
| CarsProperties.FindByVinFindsRow | backend/src/main/java/com/interview/service/impl/CarsServiceImpl.java:65-66 | looking up a stored VIN finds exactly that row |
| CarsProperties.StoredVinIsCanonical | backend/src/main/java/com/interview/domain/entity/Cars.java:80 | every stored VIN is present and canonical |
| CarsProperties.GetByVinFindsEquivalent | backend/src/main/java/com/interview/service/impl/CarsServiceImpl.java:63-69 | any argument whose canonical form is a stored VIN returns that car |
| CarsProperties.GetByVinFindsVariant | backend/src/main/java/com/interview/service/impl/CarsServiceImpl.java:63-69 | any spelling of a stored VIN, in any mix of ASCII case and padded, returns that car |
| CarsProperties.GetByVinNotFound | backend/src/main/java/com/interview/service/impl/CarsServiceImpl.java:64-67 | NotFound iff no stored VIN equals the canonical argument; a null VIN finds nothing |
| CarsProperties.CreateSuccess | backend/src/main/java/com/interview/service/impl/CarsServiceImpl.java:72-77 | succeeds iff the normalised request fits the columns and its VIN is new; then it is stored under the next id with version 0, and exactly one event with that id and the canonical VIN is appended |
| CarsProperties.CreatedRow | backend/src/main/java/com/interview/service/impl/CarsServiceImpl.java:73-74 | a successful create adds exactly one row, under the next id, holding the canonical request VIN |
| CarsProperties.CreateFailureChangesNothing | backend/src/main/java/com/interview/service/impl/CarsServiceImpl.java:74-75 | a failed create is a data-integrity failure, stores nothing and publishes nothing |
| CarsProperties.CreateEventCount | backend/src/main/java/com/interview/service/impl/CarsServiceImpl.java:75 | create publishes one event when it succeeds and none otherwise |
| CarsProperties.CaseVariantVinIsDuplicate | backend/src/main/java/com/interview/domain/entity/Cars.java:22-24 | creating a car whose VIN differs from a stored one only by ASCII case (any mix) and padding never succeeds and changes nothing: it is refused as a duplicate VIN, or for its columns, and always as a duplicate when its other columns fit |
| CarsProperties.LowerCasedVinIsRefused | backend/src/test/java/com/interview/service/impl/CarsServiceImplITTest.java:64-72 | creating a car with a stored VIN lower-cased is refused with a data-integrity error (duplicate VIN or column rejection) and changes nothing; a duplicate VIN whenever the other columns fit |
| CarsProperties.CreatedCarIsFound | backend/src/main/java/com/interview/service/impl/CarsServiceImpl.java:72-77 | after a successful create, `getById` of the new id and `getByVin` of the request's VIN return the created car |
| CarsProperties.StaleReplaceConflicts | backend/src/main/java/com/interview/service/impl/CarsServiceImpl.java:80-87 | NotFound iff the id is absent; VersionConflict iff present with an unequal version, null included, and then nothing changes |
| CarsProperties.StalePatchConflicts | backend/src/main/java/com/interview/service/impl/CarsServiceImpl.java:99-106 | the same for `patch` |
| CarsProperties.FailedUpdateChangesNothing | backend/src/main/java/com/interview/service/impl/CarsServiceImpl.java:122-127 | a replace or patch that fails, on validation or on save, persists nothing |
| CarsProperties.SavedLoadedRow | backend/src/main/java/com/interview/domain/entity/Cars.java:65-75 | a successful save of a loaded entity implies it held the stored version; it replaces only that row with the normalised entity, whose version is the stored version + 1, createdAt kept and updatedAt refreshed |
| CarsProperties.NormalizedReplace | backend/src/main/java/com/interview/service/impl/CarsServiceImpl.java:89-95 | normalising a stored row after the setters gives the request's fields, make and model trimmed, with id, vin and createdAt kept |
| CarsProperties.NormalizedPatch | backend/src/main/java/com/interview/service/impl/CarsServiceImpl.java:108-111 | normalising a stored row after the patch gives each field the request sets, make and model trimmed, and the stored value elsewhere |
| CarsProperties.ReplaceSpecOk | backend/src/main/java/com/interview/service/impl/CarsServiceImpl.java:80-95 | a replace succeeds only past the lookup, an equal version and OnUpdate validation, by saving the overwritten row |
| CarsProperties.PatchSpecOk | backend/src/main/java/com/interview/service/impl/CarsServiceImpl.java:99-111 | a patch succeeds only past the lookup, an equal version and OnPatch validation, by saving the patched row |
| CarsProperties.ReplaceSuccess | backend/src/main/java/com/interview/service/impl/CarsServiceImpl.java:89-95 | a successful replace stores the request's fields (trimmed), keeps id, vin and createdAt, bumps the version, passed OnUpdate, touches no other row |
| CarsProperties.PatchSuccess | backend/src/main/java/com/interview/service/impl/CarsServiceImpl.java:108-111 | a successful patch changes only the fields the request sets, never vin, bumps the version, passed OnPatch, touches no other row |
| CarsProperties.IdsBelowCount | backend/src/main/java/com/interview/service/impl/CarsServiceImpl.java:49 | the id listing has one entry per stored id below the bound |
| CarsProperties.RowCount | backend/src/main/java/com/interview/service/impl/CarsServiceImpl.java:49 | the listing has as many rows as the table |
| CarsProperties.ListFiltered | backend/src/main/java/com/interview/service/impl/CarsServiceImpl.java:40-46 | with both filters the content is every exact match whatever the page, and the total is their count on the first page |
| CarsProperties.ListFilteredTotalOnLaterPage | backend/src/main/java/com/interview/service/impl/CarsServiceImpl.java:46 | on a later page the filtered total becomes offset + count whenever there are matches and the page reaches past their count; with no matches it is 0 |
| CarsProperties.ListUnfiltered | backend/src/main/java/com/interview/service/impl/CarsServiceImpl.java:48-50 | otherwise the page is the mapped `findAll` slice, at most the page size, with the number of stored cars as total |
| CarsProperties.OneRowKeepsVinsValid | backend/src/main/java/com/interview/domain/entity/Cars.java:55-58 | writing one row whose VIN passes the pattern keeps every stored VIN valid |
| CarsProperties.PostPassesVin | backend/src/main/java/com/interview/web/controller/CarsController.java:106 | a body that passes OnCreate carries a VIN matching the pattern and is handed to `create` |
| CarsProperties.PostKeepsVinsValid | backend/src/main/java/com/interview/web/controller/CarsController.java:106 | through the API, create keeps every stored VIN valid |
| CarsProperties.PutKeepsVinsValid | backend/src/main/java/com/interview/web/controller/CarsController.java:126-127 | through the API, replace keeps every stored VIN valid |
| CarsProperties.PatchAtEdgeKeepsVinsValid | backend/src/main/java/com/interview/web/controller/CarsController.java:143-144 | through the API, patch keeps every stored VIN valid |
| CarsProperties.PostRefusesLowerCaseVin | backend/src/main/java/com/interview/web/dto/cars/CarsRequest.java:39-40 | a POST whose VIN has a lower-case letter or padding is refused with a vin violation and changes nothing |
| CarsProperties.EdgeGetByVinSeesCanonical | backend/src/main/java/com/interview/web/controller/CarsController.java:85-87 | a path VIN that passes the pattern is already canonical, so the service's normalisation changes nothing |
| CarsProperties.Step | backend/src/main/java/com/interview/service/impl/CarsServiceImpl.java:72-120 | any one mutating operation keeps the store invariant |
| CarsProperties.Run | backend/src/main/java/com/interview/service/impl/CarsServiceImpl.java:72-120 | any sequence of mutating operations keeps the store invariant |
| CarsProperties.EvolvesTransitive | backend/src/main/java/com/interview/domain/entity/Cars.java:55-67 | the "never rewrites id, vin or createdAt, never lowers a version" relation composes |
| CarsProperties.CreateEvolves | backend/src/main/java/com/interview/service/impl/CarsServiceImpl.java:72-77 | create rewrites no existing row and publishes one event iff it succeeds |
| CarsProperties.OneRowUpdateEvolves | backend/src/main/java/com/interview/domain/entity/Cars.java:65-71 | rewriting one row with its VIN and createdAt kept and its version raised by one never rewrites ids, VINs or createdAt and never lowers a version |
| CarsProperties.ReplaceEvolves | backend/src/main/java/com/interview/service/impl/CarsServiceImpl.java:80-96 | replace keeps every row's vin and createdAt, raises the version of the row it saves by one, publishes nothing |
| CarsProperties.PatchEvolves | backend/src/main/java/com/interview/service/impl/CarsServiceImpl.java:99-112 | patch keeps every row's vin and createdAt, raises the version of the row it saves by one, publishes nothing |
| CarsProperties.DeleteEvolves | backend/src/main/java/com/interview/service/impl/CarsServiceImpl.java:115-120 | delete only removes, and publishes nothing |
| CarsProperties.StepEvolves | backend/src/main/java/com/interview/service/impl/CarsServiceImpl.java:72-120 | every operation keeps ids, VINs and createdAt, never lowers a version, and adds an event only on a successful create |
| CarsProperties.RunEvolves | backend/src/main/java/com/interview/service/impl/CarsServiceImpl.java:72-120 | over any run the same holds, and the number of events equals the number of successful creates |
| ExceptionHandler.FirstWins | backend/src/main/java/com/interview/web/advice/exception/handling/TekmetricExceptionHandler.java:36-39 | the `LinkedHashMap` collect has one entry per distinct key, the same key set, and only input entries |
| ExceptionHandler.FirstWinsKeepsFirst | backend/src/main/java/com/interview/web/advice/exception/handling/TekmetricExceptionHandler.java:36-39 | every key shows the value of its first occurrence (merge `(a, b) -> a`) |
| ExceptionHandler.FieldEntries | backend/src/main/java/com/interview/web/advice/exception/handling/TekmetricExceptionHandler.java:37-38 | one entry per field error, a null default message replaced by "Invalid value" |
| ExceptionHandler.ViolationEntries | backend/src/main/java/com/interview/web/advice/exception/handling/TekmetricExceptionHandler.java:56-57 | one entry per constraint violation, from its property path and message |
| ExceptionHandler.Handle | backend/src/main/java/com/interview/web/advice/exception/handling/TekmetricExceptionHandler.java:141-144 | the title is the status's reason phrase and `path` the request URI; `fields` and `violations` appear only for their own exception |
| ExceptionHandler.MakeProblem | backend/src/main/java/com/interview/web/advice/exception/handling/TekmetricExceptionHandler.java:141-144 | status and detail as given, the status's reason phrase as title, the request URI as path, and no `fields` or `violations` |
| ExceptionHandler.TypeMismatchDetail | backend/src/main/java/com/interview/web/advice/exception/handling/TekmetricExceptionHandler.java:79-82 | the detail starts "Parameter '", names the parameter, and ends with the required type's name, or "required" when there is none |
| ExceptionHandler.StatusTable | backend/src/main/java/com/interview/web/advice/exception/handling/TekmetricExceptionHandler.java:29-139 | request errors are 400, data-integrity and optimistic-lock failures 409, a ResponseStatusException keeps its status, anything else 500 |
| ExceptionHandler.ProblemTypeTable | backend/src/main/java/com/interview/web/advice/exception/handling/TekmetricExceptionHandler.java:29-139 | client-error type iff a request error, optimistic-lock failure or ResponseStatusException below 500; the data-integrity violation is the only answer below 500 typed internal-error |
| ExceptionHandler.ResponseStatusDetail | backend/src/main/java/com/interview/web/advice/exception/handling/TekmetricExceptionHandler.java:121-124 | the detail of a ResponseStatusException is its reason, or "Error" without one |
| ExceptionHandler.FieldsKeepFirstMessage | backend/src/main/java/com/interview/web/advice/exception/handling/TekmetricExceptionHandler.java:31-42 | the `fields` map shows each field's first message, "Invalid value" for a null one |
| ExceptionHandler.ViolationsKeepFirstMessage | backend/src/main/java/com/interview/web/advice/exception/handling/TekmetricExceptionHandler.java:51-61 | the `violations` map shows each property path's first message |
| ExceptionHandler.FieldErrorsOf | backend/src/main/java/com/interview/web/controller/CarsController.java:106 | one field error per request violation, named by the field, carrying the constraint's message |
| ExceptionHandler.Raised | backend/src/main/java/com/interview/service/impl/CarsServiceImpl.java:80-87 | an absent car and a version mismatch become a `ResponseStatusException` with a reason; both database rejections a `DataIntegrityViolationException`; a stale save an optimistic-locking failure; a rejected entity a `ConstraintViolationException` with its violations; a rejected body a validation exception with one field error per violation |
| ExceptionHandler.FailureResponses | backend/src/main/java/com/interview/web/advice/exception/handling/TekmetricExceptionHandler.java:99-132 | what the exception handler answers: absent car 404, version mismatch and stale save 409 client-error, duplicate VIN or column rejection 409 internal-error, rejected body or entity 400 |

## Left out

- JWT issuing and checking, Spring Security and sign-in: foreign crypto, bcrypt and framework configuration.
- Resilience4j decorators and the controller's fallback methods: framework behaviour outside the car protocol.
- `LocationHeaderOnPostAdvice`: works by reflection and by mutating the servlet response.
- The asynchronous after-commit `CarEventListener` and any concurrency. Events are recorded on the store in publication order; a lost race appears only as a stale-version save.
- Wall-clock timestamps and the problem's `timestamp` property: the clock is an abstract counter bumped once per successful save.
- Sorting requested through the `Pageable`: `findAll` is modelled as a slice of the rows in id order.
- CarsService.CarStore.SaveAndFlush: bumps the version and `updatedAt` on every save of a loaded entity, whereas Hibernate skips the UPDATE when no field changed.
- CarsService.CarStore.SaveAndFlush: an IDENTITY id consumed by a failed insert is not modelled; a failed insert leaves the next id unchanged.
- Bean validation that JPA may run on persist and update under the Default group: that depends on configuration that is not part of this model.
- Which groups extend Default, and so see the ungrouped `@PositiveOrZero`, is a parameter (`defaultGroups`), because the group interfaces are not part of this model.
- Validation.CheckSizeMax: counts Dafny chars, while Java counts UTF-16 code units; only supplementary characters are counted differently.
- Text.ToUpper: upper-cases ASCII only; Java's locale-sensitive Unicode case mapping is not modelled.
- Java's 32-bit `Integer` and 64-bit `Long` widths: ids, years, odometer and versions are unbounded integers.
- The order of violations: Hibernate Validator returns a set, so when one property fails two constraints, which message the first-wins map keeps is a model choice (field declaration order).
- Validation messages are the constraints' message keys, except `@Vin`'s fixed text; locale interpolation is not modelled.
- ExceptionHandler.Handle: a `ResponseStatusException` whose code is not a known `HttpStatus` (where `HttpStatus.valueOf` would throw) is not modelled; statuses carry their reason phrase.
- `ProblemType.java` is only the two URI constants, kept as `ExceptionHandler.ProblemType.Uri`.
