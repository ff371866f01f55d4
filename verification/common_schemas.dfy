/**
 * The shared schemas (`api/schemas/common.py`): the pagination query
 * parameters, and the bodies of error responses.
 */
module CommonSchemas {
  import opened Wrappers
  import opened JsonValues
  import opened ApiErrors

  const OffsetKey := "offset"
  const LimitKey := "limit"
  const DefaultOffset := 0
  const DefaultLimit := 100
  const MinLimit := 1
  const MaxLimit := 1000

  datatype Pagination = Pagination(offset: int, limit: int)

  predicate InRange(i: int, min: int, max: Option<int>) {
    min <= i && (max.None? || i <= max.value)
  }

  /**
   * An `Integer` field that may not be null, has a load default and a range:
   * absent gives the default; otherwise only an integer in range is accepted.
   */
  function LoadInteger(input: map<string, Json>, key: string, default: int, min: int, max: Option<int>)
    : (r: Result<int, FieldError>)
    ensures key !in input ==> r == Success(default)
    ensures key in input ==> (r.Success? <==> input[key].JInt? && InRange(input[key].i, min, max))
    ensures key in input && r.Success? ==> input[key] == JInt(r.value)
    ensures key in input && input[key] == JNull ==> r == Failure(NullValue)
  {
    if key !in input then Success(default)
    else match input[key]
      case JNull => Failure(NullValue)
      case JInt(i) => if InRange(i, min, max) then Success(i) else Failure(OutOfRange)
      case _ => Failure(InvalidType)
  }

  /** Every field the schema does not declare is refused. */
  function UnknownFields(input: map<string, Json>, known: set<string>): (errors: ErrorMap)
    ensures errors.Keys == input.Keys - known
    ensures forall k :: k in errors ==> errors[k] == UnknownField
  {
    map k | k in input.Keys && k !in known :: UnknownField
  }

  /** The complaint about one loaded field, if it failed. */
  function FieldComplaint<T>(key: string, r: Result<T, FieldError>): (errors: ErrorMap)
    ensures r.Success? ==> errors == map[]
    ensures r.Failure? ==> errors == map[key := r.error]
    ensures errors.Keys == if r.Failure? then {key} else {}
  {
    if r.Failure? then map[key := r.error] else map[]
  }

  /** A query parameter is acceptable: absent, or an integer in range. */
  ghost predicate Acceptable(input: map<string, Json>, key: string, min: int, max: Option<int>) {
    key !in input || (input[key].JInt? && InRange(input[key].i, min, max))
  }

  /**
   * `PaginationSchema().load`: `offset` defaults to 0 and must be at least 0;
   * `limit` defaults to 100 and must lie in [1, 1000]; neither may be null,
   * and no other parameter is accepted. On failure every offending field is
   * reported, and only those.
   */
  function LoadPagination(input: map<string, Json>): (r: Result<Pagination, ErrorMap>)
    ensures r.Success? <==>
      && input.Keys <= {OffsetKey, LimitKey}
      && Acceptable(input, OffsetKey, 0, None)
      && Acceptable(input, LimitKey, MinLimit, Some(MaxLimit))
    ensures r.Success? ==>
      && 0 <= r.value.offset
      && MinLimit <= r.value.limit <= MaxLimit
      && (OffsetKey !in input ==> r.value.offset == DefaultOffset)
      && (OffsetKey in input ==> input[OffsetKey] == JInt(r.value.offset))
      && (LimitKey !in input ==> r.value.limit == DefaultLimit)
      && (LimitKey in input ==> input[LimitKey] == JInt(r.value.limit))
    ensures r.Failure? ==>
      && r.error != map[]
      && r.error.Keys <= input.Keys
      && (OffsetKey in r.error <==> !Acceptable(input, OffsetKey, 0, None))
      && (LimitKey in r.error <==> !Acceptable(input, LimitKey, MinLimit, Some(MaxLimit)))
      && (forall k :: k in r.error && k != OffsetKey && k != LimitKey ==> r.error[k] == UnknownField)
  {
    var offset := LoadInteger(input, OffsetKey, DefaultOffset, 0, None);
    var limit := LoadInteger(input, LimitKey, DefaultLimit, MinLimit, Some(MaxLimit));
    var unknown := UnknownFields(input, {OffsetKey, LimitKey});
    var errors := unknown + FieldComplaint(OffsetKey, offset) + FieldComplaint(LimitKey, limit);
    assert unknown.Keys <= errors.Keys;
    if offset.Success? && limit.Success? && errors == map[] then
      assert input.Keys - {OffsetKey, LimitKey} == {};
      Success(Pagination(offset.value, limit.value))
    else
      assert errors != map[] by {
        if offset.Failure? {
          assert OffsetKey in errors;
        } else if limit.Failure? {
          assert LimitKey in errors;
        }
      }
      Failure(errors)
  }

  /** A null parameter is refused, whatever the other parameters are. */
  lemma NullRefused(input: map<string, Json>, key: string)
    requires key in {OffsetKey, LimitKey} && key in input && input[key] == JNull
    ensures LoadPagination(input).Failure?
    ensures key in LoadPagination(input).error && LoadPagination(input).error[key] == NullValue
  {
  }

  // ----- error responses -----

  const MessageKey := "message"
  const ErrorsKey := "errors"

  /**
   * The text marshmallow gives one field error. A refused field is written
   * as a list holding its message, as `normalized_messages()` writes it.
   */
  function FieldErrorText(f: FieldError): string {
    match f
    case MissingData => "Missing data for required field."
    case NullValue => "Field may not be null."
    case InvalidType => "Invalid input type."
    case OutOfRange => "Invalid value."
    case UnknownField => "Unknown field."
  }

  function FieldErrorJson(f: FieldError): Json {
    JList([JStr(FieldErrorText(f))])
  }

  /** The field error a written complaint stands for, if any. */
  function ReadFieldError(j: Json): (r: Option<FieldError>)
    ensures r.Some? ==> FieldErrorJson(r.value) == j
  {
    if j == FieldErrorJson(MissingData) then Some(MissingData)
    else if j == FieldErrorJson(NullValue) then Some(NullValue)
    else if j == FieldErrorJson(InvalidType) then Some(InvalidType)
    else if j == FieldErrorJson(OutOfRange) then Some(OutOfRange)
    else if j == FieldErrorJson(UnknownField) then Some(UnknownField)
    else None
  }

  /** `fields.Dict()` on the field errors: one entry per refused field. */
  function DumpErrors(errors: ErrorMap): (o: map<string, Json>)
    ensures o.Keys == errors.Keys
    ensures forall k :: k in errors ==> ReadFieldError(o[k]) == Some(errors[k])
  {
    map k | k in errors :: FieldErrorJson(errors[k])
  }

  /** The field errors of a written `errors` object, if every entry is a complaint. */
  function ReadErrors(o: map<string, Json>): Option<ErrorMap> {
    if forall k :: k in o ==> ReadFieldError(o[k]).Some? then
      Some(map k | k in o :: ReadFieldError(o[k]).value)
    else None
  }

  /** Written field errors read back as the same field errors. */
  lemma ReadDumpErrors(errors: ErrorMap)
    ensures ReadErrors(DumpErrors(errors)) == Some(errors)
  {
    var o := DumpErrors(errors);
    assert forall k :: k in o ==> ReadFieldError(o[k]).Some?;
    var read := map k | k in o :: ReadFieldError(o[k]).value;
    assert read.Keys == errors.Keys;
    assert forall k :: k in read ==> read[k] == errors[k];
    assert read == errors;
  }

  /**
   * `BaseAPIErrorSchema().dumps(error)`, the body of an error raised while
   * executing a request: an object with the message only.
   */
  function DumpError(e: ApiError): (body: map<string, Json>)
    ensures body.Keys == {MessageKey}
    ensures body[MessageKey] == JStr(e.message)
  {
    map[MessageKey := JStr(e.message)]
  }

  /**
   * `ValidationErrorSchema().dumps(error)`, the body of a refused request:
   * an object with the message and the field errors, null when the error
   * carries none.
   */
  function DumpValidationError(e: ApiError): (body: map<string, Json>)
    requires e.BadRequestError?
    ensures body.Keys == {MessageKey, ErrorsKey}
    ensures body[MessageKey] == JStr(e.message)
    ensures e.errors.None? <==> body[ErrorsKey] == JNull
    ensures e.errors.Some? ==> body[ErrorsKey].JObject? && body[ErrorsKey].fields.Keys == e.errors.value.Keys
  {
    var errors := if e.errors.Some? then JObject(DumpErrors(e.errors.value)) else JNull;
    map[MessageKey := JStr(e.message), ErrorsKey := errors]
  }

  /** The message of a written error body, if it has one. */
  function ReadMessage(body: map<string, Json>): Option<string> {
    if MessageKey in body && body[MessageKey].JStr? then Some(body[MessageKey].s) else None
  }

  /** The bad-request error a written validation body stands for, if it is one. */
  function ReadValidationError(body: map<string, Json>): Option<ApiError> {
    if MessageKey !in body || !body[MessageKey].JStr? || ErrorsKey !in body then None
    else match body[ErrorsKey]
      case JNull => Some(BadRequestError(body[MessageKey].s, None))
      case JObject(o) =>
        if ReadErrors(o).Some? then Some(BadRequestError(body[MessageKey].s, ReadErrors(o))) else None
      case _ => None
  }

  /** An error body reads back as the error's message. */
  lemma ReadDumpError(e: ApiError)
    ensures ReadMessage(DumpError(e)) == Some(e.message)
  {
  }

  /** A validation body reads back as the same error: message and field errors, none included. */
  lemma {:induction false} ReadDumpValidationError(e: ApiError)
    requires e.BadRequestError?
    ensures ReadValidationError(DumpValidationError(e)) == Some(e)
  {
    if e.errors.Some? {
      ReadDumpErrors(e.errors.value);
    }
  }
}
