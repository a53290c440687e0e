/**
 * The response value: a success, a failure carrying an error object, or a
 * response kept as received JSON text (`ResponseJsonHolder`), with the
 * factories `Response.success` and `Response.error`, the accessors of the
 * `Response` interface and the equality each implementation defines.
 */
module Responses {
  import opened Wrappers
  import opened Json
  import opened PresetErrors
  import opened Requests

  /** The error object of a failure: code, message and optional data. */
  datatype ErrorField = ErrorField(code: int, message: string, data: Option<Json>)

  /** `ErrorField.from`: the catalog's code and message, no data. */
  function ErrorFieldFrom(e: PresetError): (f: ErrorField)
    ensures f.code == e.Code() && f.message == e.Message() && f.data.None?
    ensures FromCode(f.code) == Some(e)
  {
    CodesDistinct(e, e);
    ErrorField(e.Code(), e.Message(), None)
  }

  /**
   * A response. `Success` and `Failure` are `ResponseSuccess` and
   * `ResponseError`; `Holder` is `ResponseJsonHolder`, which only keeps the
   * JSON text and re-reads it on every access.
   */
  datatype Response =
    | Success(result: Json, jsonrpc: string, id: Option<string>)
    | Failure(error: ErrorField, jsonrpc: string, id: Option<string>)
    | Holder(json: string)

  /**
   * The JSON library the code calls (Jackson): reading text into a tree
   * (nothing for a parse exception or a null tree), a node's `toString`,
   * writing a value or a response as text and reading text back as a given
   * type (nothing on failure).
   */
  datatype Codec = Codec(
    readTree: string -> Option<Json>,
    render: Json -> string,
    serialize: Json -> Option<string>,
    deserialize: (string, TypeRef) -> Option<Json>,
    encode: Response -> Option<string>)

  /**
   * `Response.success(result, request)`: version and id come from the
   * request; "2.0" and "0" stand in for a missing request or a missing id.
   */
  function SuccessOf(result: Json, request: Option<Request> := None): (r: Response)
    ensures r.Success? && r.result == result
    ensures r.jsonrpc == (if request.Some? then request.value.jsonrpc else "2.0")
    ensures request.Some? && request.value.id.Some? ==> r.id == request.value.id
    ensures request.None? || request.value.id.None? ==> r.id == Some("0")
  {
    var version := if request.Some? then request.value.jsonrpc else "2.0";
    var id := if request.Some? then request.value.id else None;
    Success(result, version, Some(id.GetOr("0")))
  }

  /** `Response.error(code, id = "0", jsonrpc = "2.0")`: a failure with the catalog's error and no data. */
  function ErrorOf(code: PresetError, id: Option<string> := Some("0"), jsonrpc: string := "2.0"): (r: Response)
    ensures r.Failure? && r.id == id && r.jsonrpc == jsonrpc
    ensures r.error.code == code.Code() && r.error.message == code.Message() && r.error.data.None?
  {
    Failure(ErrorFieldFrom(code), jsonrpc, id)
  }

  /** The field `name` of the tree a holder's text reads as, if the text reads and has it. */
  function HolderField(json: string, name: string, codec: Codec): Option<Json> {
    match codec.readTree(json)
    case None => None
    case Some(tree) => FindValue(tree, name)
  }

  /** The error object a decoded `error` node stands for: integral code, textual message, optional data. */
  function ErrorFieldOf(node: Json): (r: Option<ErrorField>)
    ensures r.Some? ==> FindValue(node, "code") == Some(JInt(r.value.code))
    ensures r.Some? ==> FindValue(node, "message") == Some(JStr(r.value.message))
    ensures r.Some? ==> r.value.data != Some(JNull)
  {
    match (FindValue(node, "code"), FindValue(node, "message"))
    case (Some(JInt(c)), Some(JStr(m))) =>
      var data := FindValue(node, "data");
      Some(ErrorField(c, m, if data == Some(JNull) then None else data))
    case _ => None
  }

  /** `getVersion()`. A holder whose text lacks a version, or does not read, reports "2.0". */
  function Version(r: Response, codec: Codec): (v: string)
    ensures !r.Holder? ==> v == r.jsonrpc
    ensures r.Holder? && HolderField(r.json, "jsonrpc", codec).None? ==> v == "2.0"
  {
    match r
    case Success(_, jsonrpc, _) => jsonrpc
    case Failure(_, jsonrpc, _) => jsonrpc
    case Holder(json) =>
      match HolderField(json, "jsonrpc", codec)
      case Some(node) => AsText(node)
      case None => "2.0"
  }

  /** `getResponseId()`. */
  function ResponseId(r: Response, codec: Codec): (id: Option<string>)
    ensures !r.Holder? ==> id == r.id
  {
    match r
    case Success(_, _, id) => id
    case Failure(_, _, id) => id
    case Holder(json) =>
      match HolderField(json, "id", codec)
      case Some(node) => Some(AsText(node))
      case None => None
  }

  /** `isSuccess()`. A holder is a success iff its text has a `result` that is not JSON null. */
  function IsSuccess(r: Response, codec: Codec): (ok: bool)
    ensures r.Holder? ==> (ok <==> exists res :: HolderField(r.json, "result", codec) == Some(res) && res != JNull)
  {
    match r
    case Success(_, _, _) => true
    case Failure(_, _, _) => false
    case Holder(json) =>
      match HolderField(json, "result", codec)
      case Some(node) => node != JNull
      case None => false
  }

  /** `getSuccessJson()`: the result as JSON text; nothing for a failure. */
  function SuccessJson(r: Response, codec: Codec): Option<string> {
    match r
    case Success(result, _, _) => codec.serialize(result)
    case Failure(_, _, _) => None
    case Holder(json) =>
      match HolderField(json, "result", codec)
      case Some(node) => Some(codec.render(node))
      case None => None
  }

  /** `getSuccessInfo()`: the result value; nothing for a failure. */
  function SuccessInfo(r: Response, codec: Codec): Option<Json> {
    match r
    case Success(result, _, _) => Some(result)
    case Failure(_, _, _) => None
    case Holder(json) =>
      match HolderField(json, "result", codec)
      case Some(node) => codec.deserialize(codec.render(node), AnyType)
      case None => None
  }

  /** `getErrorInfo()`: the error object; nothing for a success. */
  function ErrorInfo(r: Response, codec: Codec): Option<ErrorField> {
    match r
    case Success(_, _, _) => None
    case Failure(error, _, _) => Some(error)
    case Holder(json) =>
      match HolderField(json, "error", codec)
      case None => None
      case Some(node) =>
        match codec.deserialize(codec.render(node), ErrorFieldType)
        case None => None
        case Some(decoded) => ErrorFieldOf(decoded)
  }

  /** `toJson()`: a holder returns its text unchanged; the others are written by the JSON library. */
  function ToJson(r: Response, codec: Codec): (text: Option<string>)
    ensures r.Holder? ==> text == Some(r.json)
    ensures !r.Holder? ==> text == codec.encode(r)
  {
    if r.Holder? then Some(r.json) else codec.encode(r)
  }

  /**
   * The `equals` of the three implementations: responses of different kinds
   * are never equal; successes compare result, version and id; failures
   * compare error, version and id; holders compare their text.
   */
  function Equals(a: Response, b: Response): (eq: bool)
    ensures eq <==> a == b
  {
    match (a, b)
    case (Success(r1, v1, i1), Success(r2, v2, i2)) => r1 == r2 && v1 == v2 && i1 == i2
    case (Failure(e1, v1, i1), Failure(e2, v2, i2)) => e1 == e2 && v1 == v2 && i1 == i2
    case (Holder(j1), Holder(j2)) => j1 == j2
    case _ => false
  }

  /**
   * A success or failure is a sum type: exactly one of result and error is
   * present, and `isSuccess` tells which.
   */
  lemma ExactlyOneOfResultAndError(r: Response, codec: Codec)
    requires !r.Holder?
    ensures IsSuccess(r, codec) <==> SuccessInfo(r, codec).Some?
    ensures IsSuccess(r, codec) <==> ErrorInfo(r, codec).None?
    ensures !IsSuccess(r, codec) ==> SuccessJson(r, codec).None?
    ensures IsSuccess(r, codec) ==> SuccessInfo(r, codec) == Some(r.result)
    ensures !IsSuccess(r, codec) ==> ErrorInfo(r, codec) == Some(r.error)
  {
  }

  /**
   * A holder whose text reads as an object reports that object's version and
   * id, whatever the field order: the `asText` of the first `jsonrpc` field
   * ("2.0" without one), and the `asText` of the first `id` field, so a
   * textual id as it is, an integral id as its decimal text (which reads
   * back as the number) and a null id as "null".
   */
  lemma HolderHeader(json: string, fields: seq<(string, Json)>, codec: Codec)
    requires codec.readTree(json) == Some(JObj(fields))
    ensures var v := Lookup(fields, "jsonrpc");
      && (v.None? ==> Version(Holder(json), codec) == "2.0")
      && (v.Some? && v.value.JStr? ==> Version(Holder(json), codec) == v.value.s)
    ensures var id, rid := Lookup(fields, "id"), ResponseId(Holder(json), codec);
      && (id.None? ==> rid.None?)
      && (id.Some? && id.value.JStr? ==> rid == Some(id.value.s))
      && (id.Some? && id.value.JInt? ==> rid == Some(IntText(id.value.n)) && ParseInt(rid.value) == Some(id.value.n))
      && (id == Some(JNull) ==> rid == Some("null"))
  {
    var id := Lookup(fields, "id");
    if id.Some? && id.value.JInt? {
      IntTextRoundTrip(id.value.n);
    }
  }

  /**
   * A holder whose text reads as an object with a non-null `result` is a
   * success, gives that result's text as its success JSON, and returns its
   * own text unchanged; its version and id are those of `HolderHeader`.
   */
  lemma HolderReadsBackSuccess(json: string, fields: seq<(string, Json)>, result: Json, codec: Codec)
    requires codec.readTree(json) == Some(JObj(fields))
    requires Lookup(fields, "result") == Some(result) && result != JNull
    ensures IsSuccess(Holder(json), codec)
    ensures SuccessJson(Holder(json), codec) == Some(codec.render(result))
    ensures SuccessInfo(Holder(json), codec) == codec.deserialize(codec.render(result), AnyType)
    ensures ToJson(Holder(json), codec) == Some(json)
  {
    assert HolderField(json, "result", codec) == Some(result);
  }

  /** The error object `{"code": c, "message": m, "data": null}` stands for an error without data. */
  lemma ErrorObjectWithoutData(code: int, message: string)
    ensures ErrorFieldOf(JObj([("code", JInt(code)), ("message", JStr(message)), ("data", JNull)]))
         == Some(ErrorField(code, message, None))
  {
    var fields := [("code", JInt(code)), ("message", JStr(message)), ("data", JNull)];
    LookupFirst(fields, "message", 1);
    LookupFirst(fields, "data", 2);
  }

  /**
   * A holder whose text reads as an object with an `error` and no `result`
   * is not a success, has no success info or JSON, and reports the error the
   * library reads back from the `error` node; its version and id are those
   * of `HolderHeader`.
   */
  lemma HolderReadsBackFailure(json: string, fields: seq<(string, Json)>, error: Json, codec: Codec)
    requires codec.readTree(json) == Some(JObj(fields))
    requires Lookup(fields, "error") == Some(error) && Lookup(fields, "result").None?
    ensures !IsSuccess(Holder(json), codec)
    ensures SuccessInfo(Holder(json), codec).None? && SuccessJson(Holder(json), codec).None?
    ensures codec.deserialize(codec.render(error), ErrorFieldType) == Some(error) ==>
      ErrorInfo(Holder(json), codec) == ErrorFieldOf(error)
  {
    assert HolderField(json, "error", codec) == Some(error);
    assert HolderField(json, "result", codec).None?;
  }

  /** In particular, an error node `{"code", "message", "data": null}` is reported as that code and message, without data. */
  lemma HolderReadsBackErrorObject(json: string, fields: seq<(string, Json)>, code: int, message: string, codec: Codec)
    requires var error := JObj([("code", JInt(code)), ("message", JStr(message)), ("data", JNull)]);
      && codec.readTree(json) == Some(JObj(fields))
      && Lookup(fields, "error") == Some(error) && Lookup(fields, "result").None?
      && codec.deserialize(codec.render(error), ErrorFieldType) == Some(error)
    ensures ErrorInfo(Holder(json), codec) == Some(ErrorField(code, message, None))
  {
    var error := JObj([("code", JInt(code)), ("message", JStr(message)), ("data", JNull)]);
    HolderReadsBackFailure(json, fields, error, codec);
    ErrorObjectWithoutData(code, message);
  }

  /**
   * A remote success in the order the JSON-RPC 2.0 Specification writes it,
   * `{"jsonrpc": "2.0", "result": ..., "id": n}` with an integral id, is a
   * success with version "2.0" and id text `n`.
   */
  lemma HolderStandardSuccess(json: string, result: Json, n: int, codec: Codec)
    requires result != JNull
    requires codec.readTree(json) == Some(JObj([("jsonrpc", JStr("2.0")), ("result", result), ("id", JInt(n))]))
    ensures IsSuccess(Holder(json), codec)
    ensures Version(Holder(json), codec) == "2.0"
    ensures ResponseId(Holder(json), codec) == Some(IntText(n))
  {
    var fields := [("jsonrpc", JStr("2.0")), ("result", result), ("id", JInt(n))];
    LookupFirst(fields, "result", 1);
    LookupFirst(fields, "id", 2);
    HolderHeader(json, fields, codec);
    HolderReadsBackSuccess(json, fields, result, codec);
  }

  /** A holder whose text does not read is a failure with version "2.0" and no id. */
  lemma HolderUnreadable(json: string, codec: Codec)
    requires codec.readTree(json).None?
    ensures !IsSuccess(Holder(json), codec)
    ensures Version(Holder(json), codec) == "2.0"
    ensures ResponseId(Holder(json), codec).None?
    ensures ErrorInfo(Holder(json), codec).None? && SuccessInfo(Holder(json), codec).None?
  {
  }
}
