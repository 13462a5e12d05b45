/**
 * `TekmetricExceptionHandler`: how each exception the API raises becomes an
 * RFC 9457 problem detail, and which exception each failed service outcome
 * raises.
 */
module ExceptionHandler {
  import opened Wrappers
  import opened Validation
  import opened CarsService

  /** An HTTP status: its code and its reason phrase. */
  datatype HttpStatus = HttpStatus(code: nat, reasonPhrase: string)

  const BadRequest := HttpStatus(400, "Bad Request")
  const NotFoundStatus := HttpStatus(404, "Not Found")
  const Conflict := HttpStatus(409, "Conflict")
  const InternalServerError := HttpStatus(500, "Internal Server Error")

  /** The two problem types, with their URIs. */
  datatype ProblemType = ClientError | ServerInternalError {
    function Uri(): string {
      match this
      case ClientError => "/tekmetric/problems/client-error"
      case ServerInternalError => "/tekmetric/problems/internal-error"
    }
  }

  /** One entry of a JSON object, in insertion order. */
  datatype Entry = Entry(key: string, value: string)

  /** A binding-result field error; its default message may be null. */
  datatype FieldError = FieldError(field: string, defaultMessage: Option<string>)

  /** The exceptions the handler distinguishes, with what it reads from each. */
  datatype Error =
    | MethodArgumentNotValid(fieldErrors: seq<FieldError>)
    | ConstraintViolations(violations: seq<Violation>)
    | MessageNotReadable
    | ArgumentTypeMismatch(name: string, requiredType: Option<string>)
    | MissingRequestParameter(parameterName: string)
    | DataIntegrityViolation
    | ObjectOptimisticLockingFailure
    | ResponseStatus(status: HttpStatus, reason: Option<string>)
    | Unexpected

  /** The problem detail a handler answers with (its timestamp is left out). */
  datatype Problem = Problem(
    status: HttpStatus,
    title: string,
    detail: string,
    problemType: ProblemType,
    path: string,
    fields: Option<seq<Entry>>,
    violations: Option<seq<Entry>>)

  function Keys(m: seq<Entry>): set<string> {
    set e | e in m :: e.key
  }

  /**
   * `collect(toMap(key, value, (a, b) -> a, LinkedHashMap::new))`: entries
   * are inserted in order and a key already present keeps its first value.
   */
  function FirstWins(es: seq<Entry>): (m: seq<Entry>)
    ensures Keys(m) == Keys(es)
    ensures forall i, j :: 0 <= i < j < |m| ==> m[i].key != m[j].key
    ensures forall e :: e in m ==> e in es
  {
    if es == [] then []
    else
      var rest := FirstWins(es[..|es| - 1]);
      var e := es[|es| - 1];
      assert es == es[..|es| - 1] + [e];
      assert Keys(es) == Keys(es[..|es| - 1]) + {e.key};
      if e.key in Keys(rest) then rest
      else
        assert Keys(rest + [e]) == Keys(rest) + {e.key};
        assert forall i :: 0 <= i < |rest| ==> rest[i] in rest;
        rest + [e]
  }

  /** The value a map shows for `k`: its first entry with that key. */
  function Lookup(m: seq<Entry>, k: string): Option<string> {
    if m == [] then None
    else if m[0].key == k then Some(m[0].value)
    else Lookup(m[1..], k)
  }

  lemma {:induction false} LookupAppend(m: seq<Entry>, e: Entry, k: string)
    ensures Lookup(m + [e], k) ==
      if Lookup(m, k).Some? then Lookup(m, k) else if e.key == k then Some(e.value) else None
  {
    if m != [] {
      assert (m + [e])[1..] == m[1..] + [e];
      LookupAppend(m[1..], e, k);
    }
  }

  lemma {:induction false} LookupNone(m: seq<Entry>, k: string)
    ensures Lookup(m, k).None? <==> k !in Keys(m)
  {
    if m != [] {
      LookupNone(m[1..], k);
      assert Keys(m) == {m[0].key} + Keys(m[1..]);
    }
  }

  /** The map built from `es` shows, for every key, the value of the key's first entry in `es`. */
  lemma {:induction false} FirstWinsKeepsFirst(es: seq<Entry>, k: string)
    ensures Lookup(FirstWins(es), k) == Lookup(es, k)
  {
    if es != [] {
      var init := es[..|es| - 1];
      var e := es[|es| - 1];
      assert es == init + [e];
      FirstWinsKeepsFirst(init, k);
      LookupAppend(init, e, k);
      var rest := FirstWins(init);
      if e.key in Keys(rest) {
        LookupNone(rest, e.key);
        LookupNone(init, e.key);
      } else {
        LookupAppend(rest, e, k);
      }
    }
  }

  /** `fe -> ofNullable(fe.getDefaultMessage()).orElse("Invalid value")`. */
  function FieldEntries(fes: seq<FieldError>): (es: seq<Entry>)
    ensures |es| == |fes|
    ensures forall i :: 0 <= i < |fes| ==>
      es[i] == Entry(fes[i].field, fes[i].defaultMessage.GetOr("Invalid value"))
  {
    seq(|fes|, i requires 0 <= i < |fes| => Entry(fes[i].field, fes[i].defaultMessage.GetOr("Invalid value")))
  }

  /** `v -> v.getPropertyPath().toString()` and `v -> v.getMessage()`. */
  function ViolationEntries(vs: seq<Violation>): (es: seq<Entry>)
    ensures |es| == |vs|
    ensures forall i :: 0 <= i < |vs| ==> es[i] == Entry(vs[i].path, Message(vs[i].constraint))
  {
    seq(|vs|, i requires 0 <= i < |vs| => Entry(vs[i].path, Message(vs[i].constraint)))
  }

  /** `problem(status, message, req)`: title from the status, path from the request URI. */
  function MakeProblem(status: HttpStatus, detail: string, t: ProblemType, uri: string): (p: Problem)
    ensures p.status == status && p.title == status.reasonPhrase && p.detail == detail
    ensures p.problemType == t && p.path == uri
    ensures p.fields.None? && p.violations.None?
  {
    Problem(status, status.reasonPhrase, detail, t, uri, None, None)
  }

  /** "Parameter '%s' must be of type %s", naming the required type or saying "required". */
  function TypeMismatchDetail(name: string, requiredType: Option<string>): (d: string)
    ensures |d| >= 11 + |name| && d[..11] == "Parameter '" && d[11..11 + |name|] == name
    ensures requiredType.Some? ==>
      |d| >= |requiredType.value| && d[|d| - |requiredType.value|..] == requiredType.value
    ensures requiredType.None? ==> |d| >= 8 && d[|d| - 8..] == "required"
  {
    "Parameter '" + name + "' must be of type " + requiredType.GetOr("required")
  }

  /** The handler chosen for `err`, applied to the request URI `uri`. */
  function Handle(err: Error, uri: string): (p: Problem)
    ensures p.title == p.status.reasonPhrase
    ensures p.path == uri
    ensures p.fields.Some? <==> err.MethodArgumentNotValid?
    ensures p.violations.Some? <==> err.ConstraintViolations?
  {
    match err
    case MethodArgumentNotValid(fes) =>
      MakeProblem(BadRequest, "Validation failed", ClientError, uri).(fields := Some(FirstWins(FieldEntries(fes))))
    case ConstraintViolations(vs) =>
      MakeProblem(BadRequest, "Constraint violation", ClientError, uri).(violations := Some(FirstWins(ViolationEntries(vs))))
    case MessageNotReadable =>
      MakeProblem(BadRequest, "Malformed JSON request", ClientError, uri)
    case ArgumentTypeMismatch(name, requiredType) =>
      MakeProblem(BadRequest, TypeMismatchDetail(name, requiredType), ClientError, uri)
    case MissingRequestParameter(name) =>
      MakeProblem(BadRequest, "Missing request parameter: " + name, ClientError, uri)
    case DataIntegrityViolation =>
      MakeProblem(Conflict, "Constraint violation", ServerInternalError, uri)
    case ObjectOptimisticLockingFailure =>
      MakeProblem(Conflict, "Version conflict", ClientError, uri)
    case ResponseStatus(status, reason) =>
      MakeProblem(status, reason.GetOr("Error"), if status.code < 500 then ClientError else ServerInternalError, uri)
    case Unexpected =>
      MakeProblem(InternalServerError, "Internal server error", ServerInternalError, uri)
  }

  /** The errors raised by the request layer: a body or parameter the API cannot accept. */
  predicate IsRequestError(err: Error) {
    err.MethodArgumentNotValid? || err.ConstraintViolations? || err.MessageNotReadable?
      || err.ArgumentTypeMismatch? || err.MissingRequestParameter?
  }

  /**
   * The status table: request errors are 400, data-integrity and
   * optimistic-lock failures 409, a `ResponseStatusException` keeps its own
   * status, and anything else is 500.
   */
  lemma StatusTable(err: Error, uri: string)
    ensures IsRequestError(err) ==> Handle(err, uri).status == BadRequest
    ensures err.DataIntegrityViolation? || err.ObjectOptimisticLockingFailure? ==> Handle(err, uri).status == Conflict
    ensures err.ResponseStatus? ==> Handle(err, uri).status == err.status
    ensures err.Unexpected? ==> Handle(err, uri).status == InternalServerError
  {
  }

  /**
   * The problem type is client-error exactly for the request errors, the
   * optimistic-lock failure and a `ResponseStatusException` below 500; the
   * data-integrity violation is the one answer below 500 typed internal-error.
   */
  lemma ProblemTypeTable(err: Error, uri: string)
    ensures Handle(err, uri).problemType == ClientError <==>
      IsRequestError(err) || err.ObjectOptimisticLockingFailure? || (err.ResponseStatus? && err.status.code < 500)
    ensures Handle(err, uri).problemType == ServerInternalError && Handle(err, uri).status.code < 500 <==>
      err.DataIntegrityViolation?
  {
  }

  /** The detail of a `ResponseStatusException` is its reason, or "Error" without one. */
  lemma ResponseStatusDetail(status: HttpStatus, reason: Option<string>, uri: string)
    ensures Handle(ResponseStatus(status, reason), uri).detail == if reason.Some? then reason.value else "Error"
  {
  }

  /**
   * The `fields` map has one entry per field in error, showing the field's
   * first message, with "Invalid value" for a null one.
   */
  lemma FieldsKeepFirstMessage(fes: seq<FieldError>, uri: string, i: nat)
    requires i < |fes|
    requires forall j :: 0 <= j < i ==> fes[j].field != fes[i].field
    ensures var m := Handle(MethodArgumentNotValid(fes), uri).fields.value;
      Lookup(m, fes[i].field) == Some(fes[i].defaultMessage.GetOr("Invalid value"))
  {
    var es := FieldEntries(fes);
    FirstWinsKeepsFirst(es, fes[i].field);
    FirstLookup(es, i);
  }

  /** The `violations` map shows, for each property path, the message of its first violation. */
  lemma ViolationsKeepFirstMessage(vs: seq<Violation>, uri: string, i: nat)
    requires i < |vs|
    requires forall j :: 0 <= j < i ==> vs[j].path != vs[i].path
    ensures var m := Handle(ConstraintViolations(vs), uri).violations.value;
      Lookup(m, vs[i].path) == Some(Message(vs[i].constraint))
  {
    var es := ViolationEntries(vs);
    FirstWinsKeepsFirst(es, vs[i].path);
    FirstLookup(es, i);
  }

  /** `Lookup` finds the entry at `i` when no earlier entry has its key. */
  lemma {:induction false} FirstLookup(es: seq<Entry>, i: nat)
    requires i < |es|
    requires forall j :: 0 <= j < i ==> es[j].key != es[i].key
    ensures Lookup(es, es[i].key) == Some(es[i].value)
  {
    if i > 0 {
      FirstLookup(es[1..], i - 1);
    }
  }

  // ------------------------------------------------ service outcomes

  /** The field errors Spring reports for a request body failing its group. */
  function FieldErrorsOf(vs: seq<Violation>): (fes: seq<FieldError>)
    ensures |fes| == |vs|
    ensures forall i :: 0 <= i < |vs| ==> fes[i] == FieldError(vs[i].path, Some(Message(vs[i].constraint)))
  {
    seq(|vs|, i requires 0 <= i < |vs| => FieldError(vs[i].path, Some(Message(vs[i].constraint))))
  }

  /**
   * The exception a failed outcome is thrown as: a `ResponseStatusException`
   * with a reason for an absent car or a version mismatch, a
   * `DataIntegrityViolationException` for both database rejections, and the
   * violations carried along for rejected input.
   */
  function Raised<T>(o: Outcome<T>): (e: Error)
    requires !o.Ok?
    ensures e.ResponseStatus? <==> o.NotFound? || o.VersionConflict?
    ensures e.ResponseStatus? ==> e.reason.Some?
    ensures e.DataIntegrityViolation? <==> o.DuplicateVin? || o.ColumnRejected?
    ensures e.ObjectOptimisticLockingFailure? <==> o.StaleVersion?
    ensures e.ConstraintViolations? <==> o.ConstraintViolation?
    ensures o.ConstraintViolation? ==> e.violations == o.violations
    ensures e.MethodArgumentNotValid? <==> o.InvalidRequest?
    ensures o.InvalidRequest? ==> |e.fieldErrors| == |o.violations|
  {
    match o
    case NotFound => ResponseStatus(NotFoundStatus, Some("Cars not found"))
    case VersionConflict => ResponseStatus(Conflict, Some("Version mismatch"))
    case ConstraintViolation(vs) => ConstraintViolations(vs)
    case DuplicateVin => DataIntegrityViolation
    case ColumnRejected => DataIntegrityViolation
    case StaleVersion => ObjectOptimisticLockingFailure
    case InvalidRequest(vs) => MethodArgumentNotValid(FieldErrorsOf(vs))
  }

  /**
   * What the exception handler answers for each failure of the car API: an absent car is 404,
   * a version mismatch 409 with the client-error type, a duplicate VIN 409
   * with the internal-error type, and a rejected body or entity 400.
   */
  lemma FailureResponses<T>(o: Outcome<T>, uri: string)
    requires !o.Ok?
    ensures var p := Handle(Raised(o), uri);
      && (o.NotFound? ==> p.status.code == 404 && p.detail == "Cars not found" && p.problemType == ClientError)
      && (o.VersionConflict? ==> p.status.code == 409 && p.detail == "Version mismatch" && p.problemType == ClientError)
      && (o.StaleVersion? ==> p.status.code == 409 && p.detail == "Version conflict" && p.problemType == ClientError)
      && (o.DuplicateVin? || o.ColumnRejected? ==>
            p.status.code == 409 && p.detail == "Constraint violation" && p.problemType == ServerInternalError)
      && (o.ConstraintViolation? || o.InvalidRequest? ==> p.status.code == 400 && p.problemType == ClientError)
      && p.title == p.status.reasonPhrase && p.path == uri
  {
  }
}
